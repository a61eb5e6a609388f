/**
 * Graceful shutdown (`src/daemon.rs` with `CycleControl` of `src/updater.rs`). The daemon and its
 * cycle run in one task, so the signal is noticed only while the cycle waits at an await point; it
 * can be any of them. Time passes only at await points.
 */
module Shutdown {
  import opened Text
  import opened Arithmetic
  import Configuration

  const MAX_REQUEST_TIMEOUT := Configuration.MAX_REQUEST_TIMEOUT_SECONDS * SECOND
  const TIMEOUT_STOP := 150 * SECOND

  /**
   * Where the cycle is. It awaits something only when reading or mutating; everything else is a
   * point between two awaits, which the loop cannot interrupt.
   */
  datatype Point =
    | LoopHead
    | Reading
    | Planned
    | Armed
    | Mutating(sentAt: nat)
    | Answered
    | Finished

  datatype Mode =
    | Sleeping
    | Cycling
    | Draining
    | Exited(at: nat)

  datatype Daemon = Daemon(
    now: nat,
    mode: Mode,
    point: Point,
    stopRequested: bool,
    mutationInFlight: bool,
    signalAt: Option<nat>,
    starts: seq<nat>)

  datatype Event =
    | Tick(to: nat)
    | WakeUp
    | TurnOn
    | ReadOn
    | PlanDone
    | Skip
    | EndEarly
    | Arm
    | SendWrite
    | Answer
    | Disarm
    | CycleDone
    | Signal
    | DrainDone

  /** The cycle is polled: by the loop, or by the shutdown branch that waits for it. */
  predicate Polled(d: Daemon) {
    d.mode.Cycling? || d.mode.Draining?
  }

  predicate Awaiting(p: Point) {
    p.Reading? || p.Mutating?
  }

  predicate Step(timeout: nat, d: Daemon, e: Event, t: Daemon) {
    match e
    // Time passes only while something is awaited; an answer takes at most the request timeout.
    case Tick(to) =>
      && d.now <= to
      && (d.mode.Sleeping? || (Polled(d) && Awaiting(d.point)))
      && (Polled(d) && d.point.Mutating? ==> to <= d.point.sentAt + timeout)
      && t == d.(now := to)
    // A new cycle has a control of its own and begins with discovery.
    case WakeUp =>
      && d.mode.Sleeping?
      && t == d.(mode := Cycling, point := Reading, stopRequested := false, mutationInFlight := false)
    // The head of the record loop is the only place that looks at the stop flag.
    case TurnOn =>
      && Polled(d) && d.point.LoopHead?
      && t == d.(point := if d.stopRequested then Finished else Reading)
    case ReadOn => Polled(d) && d.point.Reading? && t == d
    case PlanDone => Polled(d) && d.point.Reading? && t == d.(point := Planned)
    // Discovery is done, a plan failed or has nothing to do, or a record has no address.
    case Skip => Polled(d) && (d.point.Reading? || d.point.Planned?) && t == d.(point := LoopHead)
    // The deadline, an aborting failure, or no more records.
    case EndEarly =>
      && Polled(d) && (d.point.Reading? || d.point.Planned? || d.point.LoopHead?)
      && t == d.(point := Finished)
    // The guard raises the flag, then the request is sent; the answer comes, then the guard lowers it.
    case Arm => Polled(d) && d.point.Planned? && t == d.(point := Armed, mutationInFlight := true)
    case SendWrite =>
      && Polled(d) && d.point.Armed?
      && t == d.(point := Mutating(d.now), starts := d.starts + [d.now])
    case Answer => Polled(d) && d.point.Mutating? && t == d.(point := Answered)
    case Disarm => Polled(d) && d.point.Answered? && t == d.(point := LoopHead, mutationInFlight := false)
    case CycleDone =>
      && d.mode.Cycling? && d.point.Finished?
      && t == d.(mode := Sleeping)
    // The branch runs when the cycle gives up control, and decides by the flag alone.
    case Signal =>
      && d.signalAt.None?
      && (d.mode.Sleeping? || (d.mode.Cycling? && Awaiting(d.point)))
      && t == d.(
                signalAt := Some(d.now),
                stopRequested := d.stopRequested || d.mode.Cycling?,
                mode := if d.mode.Cycling? && d.mutationInFlight then Draining else Exited(d.now))
    case DrainDone =>
      && d.mode.Draining? && d.point.Finished?
      && t == d.(mode := Exited(d.now))
  }

  predicate Start(d: Daemon) {
    d == Daemon(d.now, Sleeping, Finished, false, false, None, [])
  }

  /** How far a cycle is from its end once stop is requested and a write is in flight. */
  function Rank(p: Point): nat {
    match p
    case Mutating(_) => 3
    case Answered => 2
    case LoopHead => 1
    case _ => 0
  }

  /** The flag is up from before the request is sent until after its answer, and at no other point. */
  predicate FlagIsRight(d: Daemon) {
    Polled(d) ==> (d.mutationInFlight <==> d.point.Armed? || d.point.Mutating? || d.point.Answered?)
  }

  /** What holds in every reachable state. */
  predicate Inv(timeout: nat, d: Daemon) {
    && FlagIsRight(d)
    && (d.mode.Cycling? ==> !d.stopRequested && d.signalAt.None?)
    && (d.mode.Sleeping? ==> d.signalAt.None? && d.point.Finished?)
    && (d.mode.Draining? ==>
          d.stopRequested && d.signalAt.Some? && !(d.point.Reading? || d.point.Planned? || d.point.Armed?))
    && (Polled(d) && d.point.Mutating? ==> d.point.sentAt <= d.now <= d.point.sentAt + timeout)
    && (d.mode.Draining? && d.point.Mutating? ==> d.point.sentAt <= d.signalAt.value)
    && (d.signalAt.Some? ==> d.signalAt.value <= d.now <= d.signalAt.value + timeout)
    && (forall i :: 0 <= i < |d.starts| ==> d.starts[i] <= d.now)
    && (d.signalAt.Some? ==> forall i :: 0 <= i < |d.starts| ==> d.starts[i] <= d.signalAt.value)
    && (d.mode.Exited? ==> d.signalAt.Some? && d.mode.at == d.now && !d.point.Mutating?)
  }

  lemma StepKeepsInv(timeout: nat, d: Daemon, e: Event, t: Daemon)
    requires Inv(timeout, d) && Step(timeout, d, e, t)
    ensures Inv(timeout, t)
  {
  }

  /** A run is a sequence of states together with the events between them. */
  predicate Run(timeout: nat, states: seq<Daemon>, events: seq<Event>) {
    && |states| == |events| + 1
    && Start(states[0])
    && forall i :: 0 <= i < |events| ==> Step(timeout, states[i], events[i], states[i + 1])
  }

  lemma {:induction false} RunKeepsInv(timeout: nat, states: seq<Daemon>, events: seq<Event>, n: nat)
    requires Run(timeout, states, events) && n < |states|
    ensures Inv(timeout, states[n])
  {
    if n > 0 {
      RunKeepsInv(timeout, states, events, n - 1);
      StepKeepsInv(timeout, states[n - 1], events[n - 1], states[n]);
    }
  }

  /** The daemon never drops a cycle whose write is started and unanswered. */
  lemma NoMutationIsDropped(timeout: nat, states: seq<Daemon>, events: seq<Event>, n: nat)
    requires Run(timeout, states, events) && n < |states| && states[n].mode.Exited?
    ensures !states[n].point.Mutating?
  {
    RunKeepsInv(timeout, states, events, n);
  }

  /** Once the signal is noticed, no later event starts a write. */
  lemma {:induction false} NoMutationAfterSignal(timeout: nat, states: seq<Daemon>, events: seq<Event>, m: nat, n: nat)
    requires Run(timeout, states, events) && m <= n < |states| && states[m].signalAt.Some?
    ensures states[n].starts == states[m].starts && states[n].signalAt == states[m].signalAt
  {
    if m < n {
      NoMutationAfterSignal(timeout, states, events, m, n - 1);
      RunKeepsInv(timeout, states, events, n - 1);
      assert Step(timeout, states[n - 1], events[n - 1], states[n - 1 + 1]);
    }
  }

  /** After the signal the daemon waits at most one request timeout, which the service unit allows for. */
  lemma ShutdownIsPrompt(timeout: nat, states: seq<Daemon>, events: seq<Event>, n: nat)
    requires Run(timeout, states, events) && n < |states| && states[n].signalAt.Some?
    ensures states[n].now <= states[n].signalAt.value + timeout
    ensures timeout <= MAX_REQUEST_TIMEOUT ==> states[n].now < states[n].signalAt.value + TIMEOUT_STOP
  {
    RunKeepsInv(timeout, states, events, n);
  }

  /** At every await of every run, the flag says whether the await is for a write. */
  lemma FlagMeansMutation(timeout: nat, states: seq<Daemon>, events: seq<Event>, n: nat)
    requires Run(timeout, states, events) && n < |states| && Polled(states[n]) && Awaiting(states[n].point)
    ensures states[n].mutationInFlight <==> states[n].point.Mutating?
  {
    RunKeepsInv(timeout, states, events, n);
  }

  /** Draining always ends: time is bounded, and every other event brings the cycle nearer its end. */
  lemma DrainingCanOnlyEnd(timeout: nat, states: seq<Daemon>, events: seq<Event>, n: nat)
    requires Run(timeout, states, events) && n < |events| && states[n].mode.Draining?
    ensures !events[n].Tick? ==> states[n + 1].mode.Exited? || Rank(states[n + 1].point) < Rank(states[n].point)
    ensures states[n + 1].mode.Draining? || (states[n + 1].mode.Exited? && states[n].point.Finished?)
  {
    RunKeepsInv(timeout, states, events, n);
    assert Step(timeout, states[n], events[n], states[n + 1]);
  }

  /** The daemon in the states of a shutdown that catches a write in flight. */
  function Caught(from: nat, sent: nat, noticed: nat, answered: nat): (r: seq<Daemon>)
    ensures |r| == CAUGHT_EVENTS + 1
  {
    var start := Daemon(from, Sleeping, Finished, false, false, None, []);
    var reading := start.(mode := Cycling, point := Reading);
    var planned := reading.(now := sent, point := Planned);
    var armed := planned.(point := Armed, mutationInFlight := true);
    var mutating := armed.(point := Mutating(sent), starts := [sent]);
    var signalled := mutating.(
      now := noticed, mode := Draining, stopRequested := true, signalAt := Some(noticed));
    var replied := signalled.(now := answered, point := Answered);
    var done := replied.(point := Finished, mutationInFlight := false);
    [start, reading, reading.(now := sent), planned, armed, mutating, mutating.(now := noticed), signalled,
     signalled.(now := answered), replied, replied.(point := LoopHead, mutationInFlight := false), done,
     done.(mode := Exited(answered))]
  }

  const CAUGHT_EVENTS := 12

  /** What happens between these states. */
  function CatchingEvents(sent: nat, noticed: nat, answered: nat): (r: seq<Event>)
    ensures |r| == CAUGHT_EVENTS
  {
    [WakeUp, Tick(sent), PlanDone, Arm, SendWrite, Tick(noticed), Signal, Tick(answered), Answer, Disarm,
     TurnOn, DrainDone]
  }

  lemma UntilNoticed(timeout: nat, from: nat, sent: nat, noticed: nat, answered: nat, i: nat)
    requires from <= sent <= noticed <= answered <= sent + timeout && i < 6
    ensures var states := Caught(from, sent, noticed, answered);
            Step(timeout, states[i], CatchingEvents(sent, noticed, answered)[i], states[i + 1])
  {
  }

  lemma OnceNoticed(timeout: nat, from: nat, sent: nat, noticed: nat, answered: nat, i: nat)
    requires from <= sent <= noticed <= answered <= sent + timeout && 6 <= i < CAUGHT_EVENTS
    ensures var states := Caught(from, sent, noticed, answered);
            Step(timeout, states[i], CatchingEvents(sent, noticed, answered)[i], states[i + 1])
  {
  }

  /**
   * The signal can catch a write in flight, at any moment until its answer: then the daemon waits for
   * the answer, starts no other write, and exits at once.
   */
  lemma WriteCanBeCaught(timeout: nat, from: nat, sent: nat, noticed: nat, answered: nat)
    requires from <= sent <= noticed <= answered <= sent + timeout
    ensures var states := Caught(from, sent, noticed, answered);
            && Run(timeout, states, CatchingEvents(sent, noticed, answered))
            && states[7].mode.Draining? && states[7].point == Mutating(sent) && states[7].signalAt == Some(noticed)
            && states[12].mode == Exited(answered) && states[12].starts == [sent]
  {
    var states := Caught(from, sent, noticed, answered);
    var events := CatchingEvents(sent, noticed, answered);
    forall i | 0 <= i < |events|
      ensures Step(timeout, states[i], events[i], states[i + 1])
    {
      if i < 6 {
        UntilNoticed(timeout, from, sent, noticed, answered, i);
      } else {
        OnceNoticed(timeout, from, sent, noticed, answered, i);
      }
    }
  }
}
