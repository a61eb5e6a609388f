/**
 * One synchronisation cycle (`src/updater.rs`) against a DNS account in which other writers may be
 * active: everything the runtime lock does not cover may change at every request.
 */
module SyncCycle {
  import opened Text
  import opened Configuration
  import opened DnsStore
  import opened Reports
  import opened Rotation

  datatype ConfiguredZone = ConfiguredZone(name: string, explicitId: Option<string>)

  function ZoneOf(r: RecordConfig): ConfiguredZone {
    ConfiguredZone(Lower(r.zone), r.zoneId)
  }

  /** A zone resolves to an ID that bears its name, and to no other than its explicit ID if it has one. */
  predicate Resolvable(zoneName: map<string, string>, zone: ConfiguredZone, id: string) {
    && id in zoneName && zoneName[id] == zone.name
    && (zone.explicitId.Some? ==> SameText(id, zone.explicitId.value))
  }

  /**
   * A write as the server log would show it: where it goes, when it was sent and answered, and
   * whether what it touched, if it took effect, was in its own slot.
   */
  datatype Issued = Issued(m: Mutation, slot: Slot, start: nat, end: nat, acked: bool, inSlot: bool)

  datatype Reply<+T> = TimedOut | Replied(result: Result<T, ApiError>)

  // ----- What a guard protects -----

  predicate Claims(r: Resource, zoneName: map<string, string>, s: Slot) {
    && s.zoneId in zoneName && zoneName[s.zoneId] == r.zone
    && s.rtype == Lower(TypeText(r.rtype)) && s.name == Lower(r.name)
  }

  predicate Covered(zoneName: map<string, string>, cover: set<Resource>, s: Slot) {
    exists r <- cover :: Claims(r, zoneName, s)
  }

  /** The part of the store that the guard over `cover` protects. */
  function GuardedPart(zoneName: map<string, string>, cover: set<Resource>, store: Store): Store {
    map k | k in store && Covered(zoneName, cover, RecordSlot(k, store[k])) :: store[k]
  }

  lemma GuardedPartFixesSlot(zoneName: map<string, string>, cover: set<Resource>, a: Store, b: Store, s: Slot)
    requires GuardedPart(zoneName, cover, a) == GuardedPart(zoneName, cover, b)
    requires Covered(zoneName, cover, s)
    ensures SlotView(a, s) == SlotView(b, s)
    ensures Matching(a, s) == Matching(b, s)
    ensures forall k :: k in Matching(a, s) ==> k in a && k in b && a[k] == b[k]
  {
    var v, w := GuardedPart(zoneName, cover, a), GuardedPart(zoneName, cover, b);
    assert SlotView(a, s) == SlotView(v, s);
    assert SlotView(b, s) == SlotView(w, s);
    SameViewSameMatches(a, b, s);
  }

  // ----- The outside world -----

  class World {
    /** The name that the zone with each ID bears. */
    const zoneName: map<string, string>
    const requestTimeout: nat
    var store: Store
    var now: nat
    /** How many requests failed, or were cut off by their deadline, through no fault of their sender. */
    var troubles: nat
    var journal: seq<Issued>
    var resolutions: seq<(ConfiguredZone, string)>
    /** How many record lookups were sent. */
    var lookups: nat

    function Protected(cover: set<Resource>): Store
      reads this
    {
      GuardedPart(zoneName, cover, store)
    }

    /** Time passes and other writers act, but not on what the guard protects. */
    method Interfere(cover: set<Resource>, latest: nat)
      requires now <= latest
      modifies this`store, this`now
      ensures old(now) <= now <= latest
      ensures Protected(cover) == old(Protected(cover))
    {
      var other: Store := *;
      if GuardedPart(zoneName, cover, other) == Protected(cover) {
        store := other;
      }
      var later: nat := *;
      if now <= later <= latest {
        now := later;
      }
    }

    /**
     * Read-only work under `timeout_at(deadline, ..)`. A shutdown handler that watches `control`
     * may look at it at any time during this work, and must find no write in flight.
     */
    method ReadUntil(cover: set<Resource>, deadline: nat, control: CycleControl?) returns (inTime: bool)
      requires control != null ==> !control.mutationInFlight
      modifies this`store, this`now, this`troubles
      ensures old(now) <= now <= Later(old(now), deadline)
      ensures Protected(cover) == old(Protected(cover))
      ensures troubles == old(troubles) + if inTime then 0 else 1
    {
      Interfere(cover, Later(now, deadline));
      inTime := *;
      if !inTime {
        troubles := troubles + 1;
      }
    }

    method ResolveZone(cover: set<Resource>, zone: ConfiguredZone, deadline: nat, control: CycleControl)
      returns (r: Reply<string>)
      requires !control.mutationInFlight
      modifies this`store, this`now, this`troubles, this`resolutions
      ensures old(now) <= now <= Later(old(now), deadline)
      ensures Protected(cover) == old(Protected(cover))
      ensures old(troubles) <= troubles
      ensures troubles == old(troubles) ==> r.Replied? && r.result.Ok?
      ensures r.Replied? && r.result.Ok? ==>
                && Resolvable(zoneName, zone, r.result.value)
                && resolutions == old(resolutions) + [(zone, r.result.value)]
      ensures !(r.Replied? && r.result.Ok?) ==> resolutions == old(resolutions)
    {
      var inTime := ReadUntil(cover, deadline, control);
      if !inTime {
        return TimedOut;
      }
      var id: string := *;
      var fault: ApiError := *;
      if !Resolvable(zoneName, zone, id) {
        troubles := troubles + 1;
        return Replied(Err(fault));
      }
      resolutions := resolutions + [(zone, id)];
      r := Replied(Ok(id));
    }

    method FindRecord(cover: set<Resource>, s: Slot, deadline: nat, control: CycleControl)
      returns (r: Reply<Option<(RecordKey, DnsRecord)>>)
      requires !control.mutationInFlight
      modifies this`store, this`now, this`troubles, this`lookups
      ensures lookups == old(lookups) + 1
      ensures old(now) <= now <= Later(old(now), deadline)
      ensures Protected(cover) == old(Protected(cover))
      ensures r.Replied? && r.result.Ok? ==> r.result == FlatLookup(store, s)
      ensures old(troubles) <= troubles
      ensures troubles == old(troubles) ==> r == Replied(FlatLookup(store, s))
    {
      lookups := lookups + 1;
      var inTime := ReadUntil(cover, deadline, control);
      if !inTime {
        return TimedOut;
      }
      var fault: ApiError := *;
      var faulty: bool := *;
      if faulty {
        troubles := troubles + 1;
      }
      r := Replied(if faulty then Err(fault) else FlatLookup(store, s));
    }

    /**
     * Sends one write and waits for its answer, for at most the request timeout. The write takes
     * full effect or none; an acknowledged write took effect, an unacknowledged one may have. A
     * shutdown handler that looks at `control` meanwhile must find the write in flight.
     */
    method Send(cover: set<Resource>, m: Mutation, control: CycleControl)
      returns (r: Result<(), ApiError>, ghost mid: Store, ghost newKey: RecordKey, ghost served: bool)
      requires control.mutationInFlight
      modifies this`store, this`now, this`troubles, this`journal
      ensures old(now) <= now <= old(now) + requestTimeout
      ensures old(troubles) <= troubles
      ensures troubles == old(troubles) && r.Err? ==> !m.Create? && m.key !in mid
      ensures journal ==
              old(journal) + [Issued(m, MutationSlot(m), old(now), now, r.Ok?, served ==> OnTarget(mid, m, newKey))]
      ensures GuardedPart(zoneName, cover, mid) == old(Protected(cover))
      ensures r.Ok? ==> served
      ensures served && m.Create? ==> newKey !in mid && newKey.zoneId == m.zoneId
      ensures served && !m.Create? ==> m.key in mid
      ensures Protected(cover) == GuardedPart(zoneName, cover, if served then Served(mid, m, newKey) else mid)
    {
      var start := now;
      var limit := now + requestTimeout;
      Interfere(cover, limit);
      mid := store;
      var key: RecordKey := *;
      newKey := key;
      var possible := if m.Create? then key !in store && key.zoneId == m.zoneId else m.key in store;
      var effect: bool := *;
      effect := effect && possible;
      served := effect;
      var inSlot := effect ==> OnTarget(store, m, key);
      if effect {
        store := Served(store, m, key);
      }
      Interfere(cover, limit);
      var fault: ApiError := *;
      var lost: bool := *;
      r := if effect && !lost then Ok(()) else Err(fault);
      if r.Err? && (m.Create? || possible) {
        troubles := troubles + 1;
      }
      journal := journal + [Issued(m, MutationSlot(m), start, now, r.Ok?, inSlot)];
    }
  }

  function Later(a: nat, b: nat): nat {
    if a < b then b else a
  }

  /** Coordinates shutdown with the cycle: two flags, and a guard that resets the second. */
  class CycleControl {
    var stopRequested: bool
    var mutationInFlight: bool

    constructor ()
      ensures !stopRequested && !mutationInFlight
    {
      stopRequested, mutationInFlight := false, false;
    }

    method RequestStop()
      modifies this`stopRequested
      ensures stopRequested
    {
      stopRequested := true;
    }

    method BeginMutation()
      modifies this`mutationInFlight
      ensures mutationInFlight
    {
      mutationInFlight := true;
    }

    method EndMutation()
      modifies this`mutationInFlight
      ensures !mutationInFlight
    {
      mutationInFlight := false;
    }
  }

  // ----- Planning and executing one record -----

  datatype Plan =
    | PlanUnchanged
    | PlanUpdate(key: RecordKey, payload: RecordPayload)
    | PlanCreate(zoneId: string, payload: RecordPayload)

  datatype Planned = PlanTimedOut | PlanFailed(stage: FailureStage, error: ApiError) | PlanReady(plan: Plan)

  datatype RecordOutcome = Unchanged | Updated | Created

  datatype Visit = DeadlineHit | Failed(stage: FailureStage, error: ApiError) | Done(outcome: RecordOutcome)

  function PlanExisting(r: RecordConfig, address: Address, key: RecordKey, existing: DnsRecord): Plan {
    if UpToDate(existing, r, address) then PlanUnchanged else PlanUpdate(key, PayloadFor(r, address))
  }

  /** The plan is right for what the store holds in the record's slot. */
  ghost predicate PlanFits(store: Store, s: Slot, zoneId: string, r: RecordConfig, address: Address, plan: Plan) {
    match plan
    case PlanUnchanged => Converged(store, s, r, address)
    case PlanUpdate(key, payload) =>
      && Matching(store, s) == {key} && !UpToDate(store[key], r, address)
      && payload == PayloadFor(r, address)
    case PlanCreate(z, payload) =>
      && Matching(store, s) == {} && r.createIfMissing
      && z == zoneId && payload == PayloadFor(r, address)
  }

  /** The record's zone may be resolved to this ID. */
  predicate InZone(w: World, id: string, r: RecordConfig) {
    Resolvable(w.zoneName, ZoneOf(r), id)
  }

  lemma SlotIsCovered(w: World, cover: set<Resource>, id: string, r: RecordConfig)
    requires InZone(w, id, r) && Tidy(r) && Named(r) in cover
    ensures Covered(w.zoneName, cover, ConfigSlot(id, r))
  {
    assert Claims(Named(r), w.zoneName, ConfigSlot(id, r));
  }

  /** Records that are named differently have different slots, whatever their zones resolve to. */
  lemma DifferentSlots(w: World, id: string, r: RecordConfig, other: string, t: RecordConfig)
    requires InZone(w, id, r) && InZone(w, other, t) && Tidy(r) && Tidy(t)
    requires Named(r) != Named(t)
    ensures ConfigSlot(id, r) != ConfigSlot(other, t)
  {
    assert |Lower(TypeText(A))| != |Lower(TypeText(AAAA))|;
  }

  /** In whichever zone its own is resolved to, the record exists once, or not at all and may be created. */
  ghost predicate Feasible(w: World, store: Store, r: RecordConfig) {
    forall id {:trigger InZone(w, id, r)} :: InZone(w, id, r) ==>
      && |Matching(store, ConfigSlot(id, r))| <= 1
      && (Matching(store, ConfigSlot(id, r)) == {} ==> r.createIfMissing)
  }

  /** When no request fails, a lookup of a feasible record finds one record, or none that may be created. */
  lemma FeasibleLookup(w: World, cover: set<Resource>, r: RecordConfig, id: string, before: Store, after: Store)
    requires InZone(w, id, r) && Tidy(r) && Named(r) in cover && Feasible(w, before, r)
    requires GuardedPart(w.zoneName, cover, before) == GuardedPart(w.zoneName, cover, after)
    ensures var found := FlatLookup(after, ConfigSlot(id, r));
            found.Ok? && (found.value.None? ==> r.createIfMissing)
  {
    SlotIsCovered(w, cover, id, r);
    GuardedPartFixesSlot(w.zoneName, cover, before, after, ConfigSlot(id, r));
  }

  /** The resolutions of a visit: one, if the zone was resolved. */
  function Resolved(r: RecordConfig, zone: Option<string>): seq<(ConfiguredZone, string)> {
    if zone.Some? then [(ZoneOf(r), zone.value)] else []
  }

  method PlanRecord(
      w: World, control: CycleControl, cover: set<Resource>, r: RecordConfig, address: Address, deadline: nat)
    returns (p: Planned, zone: Option<string>)
    requires !control.mutationInFlight && Tidy(r) && Named(r) in cover
    modifies w`store, w`now, w`troubles, w`resolutions, w`lookups
    ensures old(w.now) <= w.now <= Later(old(w.now), deadline)
    ensures w.Protected(cover) == old(w.Protected(cover))
    ensures w.resolutions == old(w.resolutions) + Resolved(r, zone)
    ensures zone.Some? ==> InZone(w, zone.value, r)
    ensures old(w.troubles) <= w.troubles
    ensures w.troubles == old(w.troubles) && Feasible(w, old(w.store), r) ==> p.PlanReady?
    ensures p.PlanReady? ==>
              zone.Some? && PlanFits(w.store, ConfigSlot(zone.value, r), zone.value, r, address, p.plan)
    ensures p.PlanReady? && p.plan.PlanCreate? ==> w.lookups == old(w.lookups) + 2
    ensures p.PlanFailed? ==> p.stage == if zone.None? then ZoneLookup else RecordLookup
  {
    var found := w.ResolveZone(cover, ZoneOf(r), deadline, control);
    if found.TimedOut? {
      return PlanTimedOut, None;
    }
    if found.result.Err? {
      return PlanFailed(ZoneLookup, found.result.error), None;
    }
    var id := found.result.value;
    zone := Some(id);
    p := PlanInZone(w, control, cover, id, r, address, deadline);
    if Feasible(w, old(w.store), r) && w.troubles == old(w.troubles) {
      FeasibleLookup(w, cover, r, id, old(w.store), w.store);
    }
  }

  /** The part of planning that follows the resolution of the zone. */
  method PlanInZone(
      w: World, control: CycleControl, cover: set<Resource>, id: string, r: RecordConfig, address: Address,
      deadline: nat)
    returns (p: Planned)
    requires !control.mutationInFlight && Tidy(r) && Named(r) in cover && InZone(w, id, r)
    modifies w`store, w`now, w`troubles, w`lookups
    ensures old(w.now) <= w.now <= Later(old(w.now), deadline)
    ensures w.Protected(cover) == old(w.Protected(cover))
    ensures old(w.troubles) <= w.troubles
    ensures w.troubles == old(w.troubles) ==>
              var found := FlatLookup(w.store, ConfigSlot(id, r));
              found.Ok? && (found.value.None? ==> r.createIfMissing) ==> p.PlanReady?
    ensures p.PlanReady? ==> PlanFits(w.store, ConfigSlot(id, r), id, r, address, p.plan)
    ensures p.PlanReady? && p.plan.PlanCreate? ==> w.lookups == old(w.lookups) + 2
    ensures p.PlanFailed? ==> p.stage == RecordLookup
    ensures p.PlanTimedOut? ==> old(w.troubles) < w.troubles
    ensures w.troubles == old(w.troubles) && p.PlanFailed? ==>
              var found := FlatLookup(w.store, ConfigSlot(id, r));
              if found.Err? then p.error == found.error
              else found.value.None? && !r.createIfMissing && p.error == RecordNotFound
  {
    var s := ConfigSlot(id, r);
    SlotIsCovered(w, cover, id, r);
    var existing := w.FindRecord(cover, s, deadline, control);
    ghost var between := w.store;
    if existing.TimedOut? {
      return PlanTimedOut;
    }
    if existing.result.Err? {
      return PlanFailed(RecordLookup, existing.result.error);
    }
    if existing.result.value.Some? {
      var (key, d) := existing.result.value.value;
      return PlanReady(PlanExisting(r, address, key, d));
    }
    if !r.createIfMissing {
      return PlanFailed(RecordLookup, RecordNotFound);
    }
    var rechecked := w.FindRecord(cover, s, deadline, control);
    GuardedPartFixesSlot(w.zoneName, cover, between, w.store, s);
    if rechecked.TimedOut? {
      return PlanTimedOut;
    }
    if rechecked.result.Err? {
      return PlanFailed(RecordLookup, rechecked.result.error);
    }
    if rechecked.result.value.Some? {
      var (key, d) := rechecked.result.value.value;
      return PlanReady(PlanExisting(r, address, key, d));
    }
    return PlanReady(PlanCreate(id, PayloadFor(r, address)));
  }

  /** The write a plan asks for. */
  function PlanMutation(plan: Plan): Mutation
    requires !plan.PlanUnchanged?
  {
    if plan.PlanUpdate? then Update(plan.key, plan.payload) else Create(plan.zoneId, plan.payload)
  }

  lemma ServedPlanConverges(
      store: Store, s: Slot, zoneId: string, r: RecordConfig, address: Address, plan: Plan, newKey: RecordKey)
    requires PlanFits(store, s, zoneId, r, address, plan) && !plan.PlanUnchanged?
    requires s == ConfigSlot(zoneId, r)
    requires plan.PlanCreate? ==> newKey !in store && newKey.zoneId == zoneId
    ensures MutationSlot(PlanMutation(plan)) == s && OnTarget(store, PlanMutation(plan), newKey)
    ensures Converged(Served(store, PlanMutation(plan), newKey), s, r, address)
  {
    var m := PlanMutation(plan);
    if plan.PlanUpdate? {
      assert plan.key in Matching(store, s);
    }
    ServedMatches(store, m, newKey);
    var k := if plan.PlanUpdate? then plan.key else newKey;
    assert Matching(Served(store, m, newKey), s) == {k};
  }

  /** Only the given slot may differ between two stores, as far as the guard reaches. */
  ghost predicate OnlyAt(w: World, cover: set<Resource>, s: Slot, before: Store, after: Store) {
    forall t :: Covered(w.zoneName, cover, t) && t != s ==> SlotView(after, t) == SlotView(before, t)
  }

  method ExecutePlan(
      w: World, control: CycleControl, cover: set<Resource>, id: string, r: RecordConfig, address: Address, plan: Plan)
    returns (v: Visit)
    requires InZone(w, id, r) && Tidy(r) && Named(r) in cover
    requires PlanFits(w.store, ConfigSlot(id, r), id, r, address, plan)
    requires !control.mutationInFlight
    modifies w`store, w`now, w`troubles, w`journal, control
    ensures !control.mutationInFlight
    ensures old(w.now) <= w.now <= old(w.now) + w.requestTimeout
    ensures old(w.troubles) <= w.troubles
    ensures w.troubles == old(w.troubles) ==> v.Done?
    ensures OnlyAt(w, cover, ConfigSlot(id, r), old(w.store), w.store)
    ensures !v.DeadlineHit? && (v.Failed? ==> v.stage == if plan.PlanUpdate? then RecordUpdate else Creation)
    ensures v.Done? ==> Converged(w.store, ConfigSlot(id, r), r, address)
    ensures plan.PlanUnchanged? ==> v == Done(Unchanged) && w.journal == old(w.journal) && w.now == old(w.now)
    ensures plan.PlanUnchanged? ==> w.store == old(w.store) && control.stopRequested == old(control.stopRequested)
    ensures !plan.PlanUnchanged? ==>
              && w.journal == old(w.journal)
                   + [Issued(PlanMutation(plan), ConfigSlot(id, r), old(w.now), w.now, v.Done?, true)]
              && (v.Done? ==> v.outcome == if plan.PlanUpdate? then Updated else Created)
    ensures old(control.stopRequested) ==> control.stopRequested
  {
    if plan.PlanUnchanged? {
      return Done(Unchanged);
    }
    var s := ConfigSlot(id, r);
    var m := PlanMutation(plan);
    control.BeginMutation();
    ghost var before := w.store;
    var answer, mid, newKey, served := w.Send(cover, m, control);
    var signalled: bool := *;
    if signalled {
      control.RequestStop();
    }
    control.EndMutation();
    SlotIsCovered(w, cover, id, r);
    GuardedPartFixesSlot(w.zoneName, cover, before, mid, s);
    if served {
      ServedPlanConverges(mid, s, id, r, address, plan, newKey);
    }
    AfterSend(w, cover, s, m, before, mid, newKey, served, w.store);
    ConvergedCarries(if served then Served(mid, m, newKey) else mid, w.store, s, r, address);
    if answer.Err? {
      return Failed(if plan.PlanUpdate? then RecordUpdate else Creation, answer.error);
    }
    return Done(if plan.PlanUpdate? then Updated else Created);
  }

  lemma AfterSend(
      w: World, cover: set<Resource>, s: Slot, m: Mutation,
      before: Store, mid: Store, newKey: RecordKey, served: bool, after: Store)
    requires Covered(w.zoneName, cover, s)
    requires GuardedPart(w.zoneName, cover, mid) == GuardedPart(w.zoneName, cover, before)
    requires served ==> MutationSlot(m) == s && OnTarget(mid, m, newKey)
    requires GuardedPart(w.zoneName, cover, after)
          == GuardedPart(w.zoneName, cover, if served then Served(mid, m, newKey) else mid)
    ensures OnlyAt(w, cover, s, before, after)
    ensures SlotView(after, s) == SlotView(if served then Served(mid, m, newKey) else mid, s)
  {
    var effect := if served then Served(mid, m, newKey) else mid;
    GuardedPartFixesSlot(w.zoneName, cover, after, effect, s);
    forall t | Covered(w.zoneName, cover, t) && t != s
      ensures SlotView(after, t) == SlotView(before, t)
    {
      GuardedPartFixesSlot(w.zoneName, cover, mid, before, t);
      GuardedPartFixesSlot(w.zoneName, cover, after, effect, t);
      if served {
        ServedKeepsOtherSlots(mid, m, newKey, t);
      }
    }
  }

  lemma ConvergedCarries(a: Store, b: Store, s: Slot, r: RecordConfig, address: Address)
    requires SlotView(a, s) == SlotView(b, s)
    ensures Converged(a, s, r, address) == Converged(b, s, r, address)
  {
    SameViewSameMatches(a, b, s);
    assert forall k :: Matching(a, s) == {k} ==> k in Matching(a, s);
  }

  /** What goes where: a slot, and the payload of a write to it. */
  type Order = (Slot, RecordPayload)

  /** The write is a creation or an update, with this payload for this slot. */
  predicate Ordered(orders: set<Order>, e: Issued) {
    !e.m.Probe? && (e.slot, e.m.payload) in orders
  }

  /** What a visit may write, if its zone was resolved. */
  function VisitOrder(r: RecordConfig, address: Address, zone: Option<string>): set<Order> {
    if zone.Some? then {(ConfigSlot(zone.value, r), PayloadFor(r, address))} else {}
  }

  /** The slot of a visit, if its zone was resolved. */
  function VisitSlot(r: RecordConfig, zone: Option<string>): set<Slot> {
    if zone.Some? then {ConfigSlot(zone.value, r)} else {}
  }

  /** A visit changed at most the slot of the zone it resolved, as far as the guard reaches. */
  ghost predicate VisitKept(
    w: World, cover: set<Resource>, r: RecordConfig, zone: Option<string>, before: Store, after: Store)
  {
    if zone.Some? then InZone(w, zone.value, r) && OnlyAt(w, cover, ConfigSlot(zone.value, r), before, after)
    else GuardedPart(w.zoneName, cover, before) == GuardedPart(w.zoneName, cover, after)
  }

  /** One turn of the record loop: plan before the deadline, and only then write. */
  method SyncRecord(
      w: World, control: CycleControl, cover: set<Resource>, r: RecordConfig, address: Address, deadline: nat)
    returns (v: Visit, ghost zone: Option<string>, ghost writes: seq<Issued>)
    requires Tidy(r) && Named(r) in cover && !control.mutationInFlight
    modifies w, control
    ensures !control.mutationInFlight
    ensures w.resolutions == old(w.resolutions) + Resolved(r, zone)
    ensures VisitKept(w, cover, r, zone, old(w.store), w.store)
    ensures v.Done? ==> zone.Some? && Converged(w.store, ConfigSlot(zone.value, r), r, address)
    ensures w.journal == old(w.journal) + writes
    ensures Wrote(VisitOrder(r, address, zone), w.requestTimeout, writes, old(w.now), w.now, deadline)
    ensures old(w.now) <= w.now <= Later(old(w.now), deadline + w.requestTimeout)
    ensures old(w.troubles) <= w.troubles
    ensures w.troubles == old(w.troubles) && w.now < deadline && Feasible(w, old(w.store), r) ==> v.Done?
    ensures v.Failed? ==> v.stage != CycleDeadline
    ensures v == Done(Created) ==> w.lookups == old(w.lookups) + 2
    ensures AckedCount(writes, true) == (if v == Done(Created) then 1 else 0)
    ensures AckedCount(writes, false) == (if v == Done(Updated) then 1 else 0)
    ensures zone.Some? && Converged(old(w.store), ConfigSlot(zone.value, r), r, address) ==>
              writes == [] && Converged(w.store, ConfigSlot(zone.value, r), r, address)
    ensures old(control.stopRequested) ==> control.stopRequested
  {
    writes := [];
    var p, found := PlanRecord(w, control, cover, r, address, deadline);
    zone := found;
    if zone.Some? {
      SlotIsCovered(w, cover, zone.value, r);
      PlanningIsHarmless(w, cover, ConfigSlot(zone.value, r), old(w.store), w.store, r, address);
    }
    if p.PlanTimedOut? {
      return DeadlineHit, zone, [];
    }
    if p.PlanFailed? {
      return Failed(p.stage, p.error), zone, [];
    }
    if w.now >= deadline {
      return DeadlineHit, zone, [];
    }
    v, writes := CarryOut(w, control, cover, found.value, r, address, p.plan, deadline);
    assert OnlyAt(w, cover, ConfigSlot(zone.value, r), old(w.store), w.store);
  }

  /** Executes a plan before the deadline, with an account of the write, if there is one. */
  method CarryOut(
      w: World, control: CycleControl, cover: set<Resource>, id: string, r: RecordConfig, address: Address, plan: Plan,
      deadline: nat)
    returns (v: Visit, ghost writes: seq<Issued>)
    requires InZone(w, id, r) && Tidy(r) && Named(r) in cover && w.now < deadline
    requires PlanFits(w.store, ConfigSlot(id, r), id, r, address, plan)
    requires !control.mutationInFlight
    modifies w`store, w`now, w`troubles, w`journal, control
    ensures !control.mutationInFlight && (old(control.stopRequested) ==> control.stopRequested)
    ensures old(w.now) <= w.now <= old(w.now) + w.requestTimeout
    ensures old(w.troubles) <= w.troubles && (w.troubles == old(w.troubles) ==> v.Done?)
    ensures OnlyAt(w, cover, ConfigSlot(id, r), old(w.store), w.store)
    ensures v.Done? ==> Converged(w.store, ConfigSlot(id, r), r, address)
    ensures plan.PlanUnchanged? ==> v.Done? && writes == []
    ensures v.Failed? ==> v.stage != CycleDeadline
    ensures v == Done(Created) ==> plan.PlanCreate?
    ensures w.journal == old(w.journal) + writes
    ensures Wrote(VisitOrder(r, address, Some(id)), w.requestTimeout, writes, old(w.now), w.now, deadline)
    ensures AckedCount(writes, true) == (if v == Done(Created) then 1 else 0)
    ensures AckedCount(writes, false) == (if v == Done(Updated) then 1 else 0)
  {
    v := ExecutePlan(w, control, cover, id, r, address, plan);
    writes := w.journal[|old(w.journal)|..];
    CountsOfVisit(writes, v);
  }

  /** How many of the first `k` writes are acknowledged creations, or others. */
  function AckedUpTo(writes: seq<Issued>, creations: bool, k: nat): nat
    requires k <= |writes|
  {
    if k == 0 then 0
    else
      var e := writes[k - 1];
      AckedUpTo(writes, creations, k - 1) + if e.m.Create? == creations && e.acked then 1 else 0
  }

  function AckedCount(writes: seq<Issued>, creations: bool): nat {
    AckedUpTo(writes, creations, |writes|)
  }

  lemma {:induction false} AckedKept(writes: seq<Issued>, more: seq<Issued>, creations: bool, k: nat)
    requires k <= |writes|
    ensures AckedUpTo(writes + more, creations, k) == AckedUpTo(writes, creations, k)
  {
    if k > 0 {
      AckedKept(writes, more, creations, k - 1);
    }
  }

  lemma AckedNext(writes: seq<Issued>, e: Issued, creations: bool)
    ensures AckedCount(writes + [e], creations) ==
            AckedCount(writes, creations) + if e.m.Create? == creations && e.acked then 1 else 0
  {
    AckedKept(writes, [e], creations, |writes|);
  }

  /** At most one more write, on top of the others. */
  lemma AckedAdds(writes: seq<Issued>, added: seq<Issued>, creations: bool)
    requires |added| <= 1
    ensures AckedCount(writes + added, creations) == AckedCount(writes, creations) + AckedCount(added, creations)
  {
    if added == [] {
      assert writes + added == writes;
    } else {
      assert added == [added[0]] && [] + added == added;
      AckedNext(writes, added[0], creations);
      AckedNext([], added[0], creations);
    }
  }

  /** One write that is acknowledged exactly when the visit is done, or none. */
  lemma CountsOfVisit(writes: seq<Issued>, v: Visit)
    requires writes == [] ==> v == Done(Unchanged)
    requires writes != [] ==> |writes| == 1 && writes[0].acked == v.Done?
    requires writes != [] && v.Done? ==> v.outcome == if writes[0].m.Create? then Created else Updated
    ensures AckedCount(writes, true) == if v == Done(Created) then 1 else 0
    ensures AckedCount(writes, false) == if v == Done(Updated) then 1 else 0
  {
    if writes != [] {
      assert writes == [] + [writes[0]];
      AckedNext([], writes[0], true);
      AckedNext([], writes[0], false);
    }
  }

  /** Nothing was written, or one of the given orders, sent before the deadline. */
  ghost predicate Wrote(orders: set<Order>, timeout: nat, writes: seq<Issued>, from: nat, to: nat, deadline: nat) {
    writes == [] || (
      && |writes| == 1
      && var e := writes[0];
         && Ordered(orders, e) && e.inSlot
         && from <= e.start < deadline && e.start <= e.end <= e.start + timeout && e.end == to)
  }

  lemma PlanningIsHarmless(
      w: World, cover: set<Resource>, s: Slot, before: Store, after: Store, r: RecordConfig, address: Address)
    requires Covered(w.zoneName, cover, s)
    requires GuardedPart(w.zoneName, cover, before) == GuardedPart(w.zoneName, cover, after)
    ensures OnlyAt(w, cover, s, before, after)
    ensures Converged(before, s, r, address) == Converged(after, s, r, address)
  {
    forall t | Covered(w.zoneName, cover, t)
      ensures SlotView(after, t) == SlotView(before, t)
    {
      GuardedPartFixesSlot(w.zoneName, cover, before, after, t);
    }
    ConvergedCarries(before, after, s, r, address);
  }

  // ----- Addresses -----

  /** Discovery per family: not needed, found, or failed. */
  datatype DiscoveredAddresses = DiscoveredAddresses(
    ipv4: Option<Result<Address, string>>,
    ipv6: Option<Result<Address, string>>)

  function ForRecord(a: DiscoveredAddresses, r: RecordConfig): Option<Address> {
    match (if r.rtype.A? then a.ipv4 else a.ipv6)
    case Some(Ok(address)) => Some(address)
    case _ => None
  }

  function DiscoveryFailures(a: DiscoveredAddresses): seq<Failure> {
    var failure := Failure(Discovery, Transient, None);
    (if a.ipv4.Some? && a.ipv4.value.Err? then [failure] else [])
    + (if a.ipv6.Some? && a.ipv6.value.Err? then [failure] else [])
  }

  lemma DiscoveryGoesOn(a: DiscoveredAddresses)
    ensures GoesOn(DiscoveryFailures(a))
  {
    StopsNext([], Failure(Discovery, Transient, None));
    StopsNext([Failure(Discovery, Transient, None)], Failure(Discovery, Transient, None));
  }

  /** What was found for a family is an address of that family. */
  predicate OfTheirFamilies(a: DiscoveredAddresses) {
    && (a.ipv4.Some? && a.ipv4.value.Ok? ==> a.ipv4.value.value.V4?)
    && (a.ipv6.Some? && a.ipv6.value.Ok? ==> a.ipv6.value.value.V6?)
  }

  /** The address that a record is to carry: an A record that of IPv4, an AAAA record that of IPv6. */
  predicate Owes(r: RecordConfig, a: DiscoveredAddresses, address: Address) {
    && (r.rtype.A? ==> address.V4? && a.ipv4 == Some(Ok(address)))
    && (r.rtype.AAAA? ==> address.V6? && a.ipv6 == Some(Ok(address)))
  }

  lemma ForRecordExactly(a: DiscoveredAddresses, r: RecordConfig, address: Address)
    requires OfTheirFamilies(a)
    ensures ForRecord(a, r) == Some(address) <==> Owes(r, a, address)
  {
  }

  /** Each family that some record needs was tried. */
  predicate CoversFamilies(a: DiscoveredAddresses, records: seq<RecordConfig>) {
    forall i :: 0 <= i < |records| ==> (if records[i].rtype.A? then a.ipv4.Some? else a.ipv6.Some?)
  }

  method DiscoverRequired(
      w: World, control: CycleControl?, cover: set<Resource>, records: seq<RecordConfig>, deadline: nat)
    returns (a: Option<DiscoveredAddresses>)
    requires control != null ==> !control.mutationInFlight
    modifies w`store, w`now, w`troubles
    ensures old(w.now) <= w.now <= Later(old(w.now), deadline)
    ensures w.Protected(cover) == old(w.Protected(cover))
    ensures a.Some? ==> CoversFamilies(a.value, records)
    ensures a.Some? ==> OfTheirFamilies(a.value)
    ensures a.Some? ==> (a.value.ipv4.Some? ==> exists i :: 0 <= i < |records| && records[i].rtype.A?)
    ensures a.Some? ==> (a.value.ipv6.Some? ==> exists i :: 0 <= i < |records| && records[i].rtype.AAAA?)
    ensures w.troubles == old(w.troubles) + if a.Some? then 0 else 1
  {
    var inTime := w.ReadUntil(cover, deadline, control);
    if !inTime {
      return None;
    }
    var needs4 := exists i :: 0 <= i < |records| && records[i].rtype.A?;
    var needs6 := exists i :: 0 <= i < |records| && records[i].rtype.AAAA?;
    var bits4: Result<nat, string>, bits6: Result<nat, string> := *, *;
    var found4 := if bits4.Ok? then Ok(V4(bits4.value)) else Err(bits4.error);
    var found6 := if bits6.Ok? then Ok(V6(bits6.value)) else Err(bits6.error);
    a := Some(DiscoveredAddresses(if needs4 then Some(found4) else None, if needs6 then Some(found6) else None));
  }

  // ----- The cycle -----

  /** In the zone with this ID, record `r` is up to date with the address discovered for its family. */
  ghost predicate Synced(w: World, store: Store, r: RecordConfig, id: string, a: DiscoveredAddresses) {
    && InZone(w, id, r) && ForRecord(a, r).Some?
    && Converged(store, ConfigSlot(id, r), r, ForRecord(a, r).value)
  }

  /** The only record of its zone, type and name carries the address of its own family, TTL and proxy flag. */
  ghost predicate UpToDateAt(store: Store, r: RecordConfig, id: string, a: DiscoveredAddresses) {
    exists address :: Owes(r, a, address) && Delivered(store, id, r, address)
  }

  ghost predicate AllUpToDate(
    store: Store, records: seq<RecordConfig>, ids: map<nat, string>, a: DiscoveredAddresses)
  {
    forall i {:trigger UpToDateAt(store, records[i], ids[i], a)} :: 0 <= i < |records| ==>
      i in ids && UpToDateAt(store, records[i], ids[i], a)
  }

  lemma SyncedExactly(w: World, store: Store, r: RecordConfig, id: string, a: DiscoveredAddresses)
    requires OfTheirFamilies(a)
    ensures Synced(w, store, r, id, a) <==> InZone(w, id, r) && UpToDateAt(store, r, id, a)
  {
    if Synced(w, store, r, id, a) {
      var address := ForRecord(a, r).value;
      ConvergedExactly(store, id, r, address);
      assert Owes(r, a, address);
    }
    if UpToDateAt(store, r, id, a) {
      var address :| Owes(r, a, address) && Delivered(store, id, r, address);
      ConvergedExactly(store, id, r, address);
    }
  }

  /** No family that was tried failed. */
  predicate BothFound(a: DiscoveredAddresses) {
    (a.ipv4.Some? ==> a.ipv4.value.Ok?) && (a.ipv6.Some? ==> a.ipv6.value.Ok?)
  }

  /** The records with these indices are all synced, in the zones with these IDs. */
  ghost predicate SyncedAmong(
    w: World, store: Store, records: seq<RecordConfig>, a: DiscoveredAddresses, done: set<nat>, ids: map<nat, string>)
  {
    && (forall j :: j in done ==> j < |records| && j in ids)
    && (forall j {:trigger Synced(w, store, records[j], ids[j], a)} ::
          j in done ==> Synced(w, store, records[j], ids[j], a))
  }

  /** The records with these indices are all feasible. */
  ghost predicate FeasibleAmong(w: World, store: Store, records: seq<RecordConfig>, able: set<nat>) {
    && (forall j :: j in able ==> j < |records|)
    && (forall j {:trigger Feasible(w, store, records[j])} :: j in able ==> Feasible(w, store, records[j]))
  }

  ghost predicate AllFeasible(w: World, store: Store, records: seq<RecordConfig>) {
    FeasibleAmong(w, store, records, Indices(|records|))
  }

  ghost predicate AllSynced(
    w: World, store: Store, records: seq<RecordConfig>, a: DiscoveredAddresses, ids: map<nat, string>)
  {
    SyncedAmong(w, store, records, a, Indices(|records|), ids)
  }

  /** Where both say to which ID a record's zone was resolved, they say the same. */
  predicate Agrees(ids: map<nat, string>, known: map<nat, string>) {
    forall i :: i in ids ==> i in known && known[i] == ids[i]
  }

  function Indices(n: nat): (r: set<nat>)
    ensures forall i: nat :: i in r <==> i < n
  {
    if n == 0 then {} else Indices(n - 1) + {n - 1}
  }

  function Resources(records: seq<RecordConfig>): (cover: set<Resource>)
    ensures forall i :: 0 <= i < |records| ==> Named(records[i]) in cover
    ensures forall c :: c in cover ==> exists i :: 0 <= i < |records| && c == Named(records[i])
  {
    set i | 0 <= i < |records| :: Named(records[i])
  }

  /** The slots of the configured records, in all zones their own may be resolved to, and what they are owed. */
  function Homes(w: World, records: seq<RecordConfig>, a: DiscoveredAddresses): set<Order> {
    set i, id | 0 <= i < |records| && id in w.zoneName && InZone(w, id, records[i]) && ForRecord(a, records[i]).Some?
      :: (ConfigSlot(id, records[i]), PayloadFor(records[i], ForRecord(a, records[i]).value))
  }

  /** The write is for this record in the zone with this ID, and carries all it is owed. */
  predicate Fulfills(e: Issued, r: RecordConfig, id: string, a: DiscoveredAddresses) {
    && e.slot == ConfigSlot(id, r) && !e.m.Probe?
    && e.m.payload.rtype == (if r.rtype.A? then "A" else "AAAA") && e.m.payload.name == r.name
    && Owes(r, a, e.m.payload.content) && e.m.payload.ttl == r.ttl && e.m.payload.proxied == r.proxied
  }

  lemma OrdersFulfill(w: World, records: seq<RecordConfig>, a: DiscoveredAddresses, e: Issued)
    requires OfTheirFamilies(a) && Ordered(Homes(w, records, a), e)
    ensures exists i, id :: 0 <= i < |records| && InZone(w, id, records[i]) && Fulfills(e, records[i], id, a)
  {
    var i, id :| 0 <= i < |records| && id in w.zoneName && InZone(w, id, records[i])
                 && ForRecord(a, records[i]).Some? && e.slot == ConfigSlot(id, records[i])
                 && e.m.payload == PayloadFor(records[i], ForRecord(a, records[i]).value);
    assert Fulfills(e, records[i], id, a);
  }

  /**
   * The writes of a cycle, all answered by `now`: only the given orders, each sent before the
   * deadline, answered within the request timeout, and sent after the answer to the one before.
   */
  ghost predicate Disciplined(orders: set<Order>, timeout: nat, writes: seq<Issued>, now: nat, deadline: nat)
    decreases |writes|
  {
    writes == [] ||
    var last := writes[|writes| - 1];
    && Ordered(orders, last) && last.inSlot
    && last.start < deadline
    && last.start <= last.end <= last.start + timeout
    && last.end <= now
    && Disciplined(orders, timeout, writes[..|writes| - 1], last.start, deadline)
  }

  /** At most one write of a cycle crosses the deadline: only the last can. */
  lemma {:induction false} OnlyLastCrosses(
      orders: set<Order>, timeout: nat, writes: seq<Issued>, now: nat, deadline: nat, e: nat)
    requires Disciplined(orders, timeout, writes, now, deadline) && e < |writes|
    ensures Ordered(orders, writes[e]) && writes[e].inSlot && writes[e].end <= now && writes[e].start < deadline
    ensures e < |writes| - 1 ==> writes[e].end < deadline
    decreases |writes|
  {
    if e < |writes| - 1 {
      OnlyLastCrosses(orders, timeout, writes[..|writes| - 1], writes[|writes| - 1].start, deadline, e);
    }
  }

  /** Every write of a cycle carries what some configured record is owed, to that record's own slot. */
  lemma EachWriteFulfills(
      w: World, records: seq<RecordConfig>, a: DiscoveredAddresses, writes: seq<Issued>, now: nat, deadline: nat,
      e: nat)
    requires OfTheirFamilies(a) && Disciplined(Homes(w, records, a), w.requestTimeout, writes, now, deadline)
    requires e < |writes|
    ensures exists i, id :: 0 <= i < |records| && InZone(w, id, records[i]) && Fulfills(writes[e], records[i], id, a)
    ensures writes[e].inSlot
  {
    OnlyLastCrosses(Homes(w, records, a), w.requestTimeout, writes, now, deadline, e);
    OrdersFulfill(w, records, a, writes[e]);
  }

  lemma StillDisciplined(
      orders: set<Order>, timeout: nat, writes: seq<Issued>, added: seq<Issued>, earlier: nat, now: nat, deadline: nat)
    requires earlier <= now && Disciplined(orders, timeout, writes, earlier, deadline)
    requires Wrote(orders, timeout, added, earlier, now, deadline)
    ensures Disciplined(orders, timeout, writes + added, now, deadline)
  {
    if added == [] {
      assert writes + added == writes;
    } else {
      assert (writes + added)[..|writes|] == writes;
      LaterDisciplined(orders, timeout, writes, earlier, added[0].start, deadline);
    }
  }

  /** What one visit writes continues the discipline of the whole cycle. */
  lemma VisitIsDisciplined(
      w: World, records: seq<RecordConfig>, a: DiscoveredAddresses, i: nat, zone: Option<string>, writes: seq<Issued>,
      added: seq<Issued>, earlier: nat, now: nat, deadline: nat)
    requires i < |records| && ForRecord(a, records[i]).Some? && earlier <= now
    requires zone.Some? ==> InZone(w, zone.value, records[i])
    requires Disciplined(Homes(w, records, a), w.requestTimeout, writes, earlier, deadline)
    requires var order := VisitOrder(records[i], ForRecord(a, records[i]).value, zone);
             Wrote(order, w.requestTimeout, added, earlier, now, deadline)
    ensures Disciplined(Homes(w, records, a), w.requestTimeout, writes + added, now, deadline)
  {
    var order := VisitOrder(records[i], ForRecord(a, records[i]).value, zone);
    assert order <= Homes(w, records, a);
    StillDisciplined(Homes(w, records, a), w.requestTimeout, writes, added, earlier, now, deadline);
  }

  lemma LaterDisciplined(orders: set<Order>, timeout: nat, writes: seq<Issued>, now: nat, later: nat, deadline: nat)
    requires Disciplined(orders, timeout, writes, now, deadline) && now <= later
    ensures Disciplined(orders, timeout, writes, later, deadline)
  {
  }

  /** A visit changes no slot but the one it resolved to. */
  lemma VisitKeepsSlot(
      w: World, cover: set<Resource>, r: RecordConfig, zone: Option<string>, before: Store, after: Store, s: Slot)
    requires VisitKept(w, cover, r, zone, before, after) && Covered(w.zoneName, cover, s)
    requires s !in VisitSlot(r, zone)
    ensures SlotView(after, s) == SlotView(before, s)
  {
    if zone.None? {
      GuardedPartFixesSlot(w.zoneName, cover, before, after, s);
    }
  }

  /** In no zone does a visit to record `i` change the slot of another record. */
  lemma VisitKeepsOther(
      w: World, records: seq<RecordConfig>, i: nat, zone: Option<string>, j: nat, id: string, before: Store,
      after: Store)
    requires NamedApart(records) && i < |records| && j < |records| && i != j && InZone(w, id, records[j])
    requires VisitKept(w, Resources(records), records[i], zone, before, after)
    ensures SlotView(after, ConfigSlot(id, records[j])) == SlotView(before, ConfigSlot(id, records[j]))
  {
    assert Tidy(records[i]) && Tidy(records[j]);
    assert Named(records[i]) != Named(records[j]);
    SlotIsCovered(w, Resources(records), id, records[j]);
    if zone.Some? {
      DifferentSlots(w, zone.value, records[i], id, records[j]);
    }
    VisitKeepsSlot(w, Resources(records), records[i], zone, before, after, ConfigSlot(id, records[j]));
  }

  lemma SyncedCarries(w: World, before: Store, after: Store, r: RecordConfig, id: string, a: DiscoveredAddresses)
    requires Synced(w, before, r, id, a)
    requires SlotView(after, ConfigSlot(id, r)) == SlotView(before, ConfigSlot(id, r))
    ensures Synced(w, after, r, id, a)
  {
    ConvergedCarries(before, after, ConfigSlot(id, r), r, ForRecord(a, r).value);
  }

  lemma FeasibleCarries(w: World, before: Store, after: Store, r: RecordConfig)
    requires Feasible(w, before, r)
    requires forall id {:trigger InZone(w, id, r)} :: InZone(w, id, r) ==>
               SlotView(after, ConfigSlot(id, r)) == SlotView(before, ConfigSlot(id, r))
    ensures Feasible(w, after, r)
  {
    forall id | InZone(w, id, r)
      ensures Matching(after, ConfigSlot(id, r)) == Matching(before, ConfigSlot(id, r))
    {
      SameViewSameMatches(before, after, ConfigSlot(id, r));
    }
  }

  lemma SyncedThroughInterference(
      w: World, records: seq<RecordConfig>, before: Store, after: Store, a: DiscoveredAddresses, ids: map<nat, string>)
    requires NamedApart(records)
    requires GuardedPart(w.zoneName, Resources(records), before) == GuardedPart(w.zoneName, Resources(records), after)
    requires AllSynced(w, before, records, a, ids)
    ensures AllSynced(w, after, records, a, ids)
  {
    forall i: nat | i < |records|
      ensures Synced(w, after, records[i], ids[i], a)
    {
      assert Synced(w, before, records[i], ids[i], a);
      assert Tidy(records[i]);
      SlotIsCovered(w, Resources(records), ids[i], records[i]);
      GuardedPartFixesSlot(w.zoneName, Resources(records), before, after, ConfigSlot(ids[i], records[i]));
      SyncedCarries(w, before, after, records[i], ids[i], a);
    }
  }

  lemma FeasibleThroughInterference(w: World, records: seq<RecordConfig>, before: Store, after: Store)
    requires NamedApart(records)
    requires GuardedPart(w.zoneName, Resources(records), before) == GuardedPart(w.zoneName, Resources(records), after)
    requires AllFeasible(w, before, records)
    ensures AllFeasible(w, after, records)
  {
    forall i: nat | i < |records|
      ensures Feasible(w, after, records[i])
    {
      assert Feasible(w, before, records[i]) && Tidy(records[i]);
      forall id | InZone(w, id, records[i])
        ensures SlotView(after, ConfigSlot(id, records[i])) == SlotView(before, ConfigSlot(id, records[i]))
      {
        SlotIsCovered(w, Resources(records), id, records[i]);
        GuardedPartFixesSlot(w.zoneName, Resources(records), before, after, ConfigSlot(id, records[i]));
      }
      FeasibleCarries(w, before, after, records[i]);
    }
  }

  lemma OthersStayFeasible(
      w: World, records: seq<RecordConfig>, i: nat, zone: Option<string>, before: Store, after: Store, able: set<nat>)
    requires NamedApart(records) && i < |records|
    requires VisitKept(w, Resources(records), records[i], zone, before, after)
    requires FeasibleAmong(w, before, records, able)
    ensures FeasibleAmong(w, after, records, able - {i})
  {
    forall j | j in able - {i}
      ensures Feasible(w, after, records[j])
    {
      assert Feasible(w, before, records[j]);
      forall id | InZone(w, id, records[j])
        ensures SlotView(after, ConfigSlot(id, records[j])) == SlotView(before, ConfigSlot(id, records[j]))
      {
        VisitKeepsOther(w, records, i, zone, j, id, before, after);
      }
      FeasibleCarries(w, before, after, records[j]);
    }
  }

  /** The IDs after a visit to record `i`. */
  function NowIn(ids: map<nat, string>, i: nat, zone: Option<string>): map<nat, string> {
    if zone.Some? then ids[i := zone.value] else ids
  }

  /** A visit to record `i` leaves it synced or not, and the others as they were. */
  lemma VisitSettles(
      w: World, records: seq<RecordConfig>, i: nat, zone: Option<string>, before: Store, after: Store,
      a: DiscoveredAddresses, done: set<nat>, ids: map<nat, string>, good: bool)
    requires NamedApart(records) && i < |records|
    requires VisitKept(w, Resources(records), records[i], zone, before, after)
    requires SyncedAmong(w, before, records, a, done, ids)
    requires good ==> zone.Some? && Synced(w, after, records[i], zone.value, a)
    ensures SyncedAmong(w, after, records, a, if good then done + {i} else done - {i}, NowIn(ids, i, zone))
  {
    var done', ids' := if good then done + {i} else done - {i}, NowIn(ids, i, zone);
    forall j | j in done'
      ensures j < |records| && j in ids' && Synced(w, after, records[j], ids'[j], a)
    {
      if j != i {
        assert Synced(w, before, records[j], ids[j], a);
        VisitKeepsOther(w, records, i, zone, j, ids[j], before, after);
        SyncedCarries(w, before, after, records[j], ids[j], a);
      }
    }
  }

  /** What is known to be synced stays so through a visit that finds the zone where it was known to be. */
  lemma KnownStaysSynced(
      w: World, records: seq<RecordConfig>, i: nat, zone: Option<string>, before: Store, after: Store,
      a: DiscoveredAddresses, known: map<nat, string>)
    requires NamedApart(records) && i < |records| && AllSynced(w, before, records, a, known)
    requires VisitKept(w, Resources(records), records[i], zone, before, after)
    requires zone.Some? ==> known[i] == zone.value && Synced(w, after, records[i], zone.value, a)
    ensures AllSynced(w, after, records, a, known)
  {
    forall j: nat | j < |records|
      ensures Synced(w, after, records[j], known[j], a)
    {
      assert Synced(w, before, records[j], known[j], a);
      if j != i {
        VisitKeepsOther(w, records, i, zone, j, known[j], before, after);
        SyncedCarries(w, before, after, records[j], known[j], a);
      } else if zone.None? {
        assert Tidy(records[i]);
        SlotIsCovered(w, Resources(records), known[i], records[i]);
        VisitKeepsSlot(w, Resources(records), records[i], zone, before, after, ConfigSlot(known[i], records[i]));
        SyncedCarries(w, before, after, records[i], known[i], a);
      }
    }
  }

  lemma MissingAddressWasReported(a: DiscoveredAddresses, records: seq<RecordConfig>, i: nat)
    requires CoversFamilies(a, records) && i < |records| && ForRecord(a, records[i]).None?
    ensures DiscoveryFailures(a) != []
  {
  }

  function Successes(report: CycleReport): nat {
    report.kept + report.updated + report.created
  }

  /** The report after one more visit. */
  function Tally(report: CycleReport, v: Visit): (r: CycleReport)
    ensures r.records == report.records && r.interrupted == report.interrupted
    ensures v.Done? ==> r.failures == report.failures
    ensures !v.Done? ==> |r.failures| == |report.failures| + 1 && r.failures[..|report.failures|] == report.failures
    ensures !v.Done? && (v.Failed? ==> v.stage != CycleDeadline) ==>
              (Stopping(r.failures[|report.failures|]) <==> StopsCycle(v))
    ensures r.kept + r.updated + r.created
         == report.kept + report.updated + report.created + if v.Done? then 1 else 0
    ensures r.created == report.created + (if v == Done(Created) then 1 else 0)
    ensures r.updated == report.updated + (if v == Done(Updated) then 1 else 0)
  {
    match v
    case Done(Unchanged) => report.(kept := report.kept + 1)
    case Done(Updated) => report.(updated := report.updated + 1)
    case Done(Created) => report.(created := report.created + 1)
    case DeadlineHit => report.(failures := report.failures + [DeadlineFailure()])
    case Failed(stage, error) => report.(failures := report.failures + [ApiFailure(stage, error)])
  }

  /** At most one more failure, and it calls for a stop exactly if `stop`. */
  predicate FailedOnce(failures: seq<Failure>, more: seq<Failure>, stop: bool) {
    if |more| == |failures| then more == failures && !stop
    else
      && |more| == |failures| + 1 && more[..|failures|] == failures
      && (stop <==> Stopping(more[|failures|]))
  }

  lemma FailedOnceStops(failures: seq<Failure>, more: seq<Failure>, stop: bool)
    requires GoesOn(failures) && FailedOnce(failures, more, stop)
    ensures StopsAtLast(more, stop)
  {
    if |more| > |failures| {
      StopsNext(failures, more[|failures|]);
      assert more == failures + [more[|failures|]];
    }
  }

  predicate StopsCycle(v: Visit) {
    v.DeadlineHit? || (v.Failed? && Aborts(v.error))
  }

  /**
   * What was the case when the record loop began. `known` maps records to zone IDs; `settled` says
   * that all of them were synced there.
   */
  datatype Outset = Outset(
    now: nat,
    troubles: nat,
    journal: seq<Issued>,
    resolutions: seq<(ConfiguredZone, string)>,
    stopped: bool,
    known: map<nat, string>,
    settled: bool,
    capable: bool)

  /** What the cycle has done: writes, resolutions, records that are synced, and the IDs of their zones. */
  datatype Progress = Progress(
    writes: seq<Issued>, log: seq<(ConfiguredZone, string)>, done: set<nat>, ids: map<nat, string>)

  /** Every ID was given by a resolution of this cycle. */
  predicate Logged(records: seq<RecordConfig>, log: seq<(ConfiguredZone, string)>, ids: map<nat, string>) {
    forall i {:trigger ids[i]} :: i in ids ==> i < |records| && (ZoneOf(records[i]), ids[i]) in log
  }

  lemma LoggedNext(
      records: seq<RecordConfig>, log: seq<(ConfiguredZone, string)>, ids: map<nat, string>, i: nat,
      zone: Option<string>)
    requires Logged(records, log, ids) && i < |records|
    ensures Logged(records, log + Resolved(records[i], zone), NowIn(ids, i, zone))
  {
    forall j | j in NowIn(ids, i, zone)
      ensures j < |records| && (ZoneOf(records[j]), NowIn(ids, i, zone)[j]) in log + Resolved(records[i], zone)
    {
      if j in ids {
        assert (ZoneOf(records[j]), ids[j]) in log;
      }
    }
  }

  class Updater {
    const records: seq<RecordConfig>
    var cursor: nat

    ghost predicate Ready() {
      records != [] && NamedApart(records)
    }

    constructor (records: seq<RecordConfig>)
      requires ValidRecords(records)
      ensures this.records == records && cursor == 0 && Ready()
    {
      this.records := records;
      cursor := 0;
      ValidRecordsAreNamedApart(records);
    }

    /** The accounts of the cycle: journal, resolutions and time. */
    ghost predicate Accounted(w: World, a: DiscoveredAddresses, first: Outset, g: Progress, deadline: nat)
      reads w
    {
      && w.journal == first.journal + g.writes && w.resolutions == first.resolutions + g.log
      && Logged(records, g.log, g.ids)
      && Disciplined(Homes(w, records, a), w.requestTimeout, g.writes, w.now, deadline)
    }

    /** What was synced is, and nothing was written, as long as every zone resolves as was known. */
    ghost predicate StillSettled(w: World, a: DiscoveredAddresses, first: Outset, g: Progress)
      reads w
    {
      first.settled && Agrees(g.ids, first.known) ==> AllSynced(w, w.store, records, a, first.known) && g.writes == []
    }

    /** Visits one record whose address is known; `able` are records known to be feasible. */
    method VisitRecord(
        w: World, control: CycleControl, a: DiscoveredAddresses, i: nat, deadline: nat,
        ghost first: Outset, ghost g: Progress, ghost able: set<nat>)
      returns (v: Visit, ghost g': Progress)
      requires Ready() && i < |records| && ForRecord(a, records[i]).Some? && i !in g.ids
      requires !control.mutationInFlight && Accounted(w, a, first, g, deadline) && StillSettled(w, a, first, g)
      requires SyncedAmong(w, w.store, records, a, g.done, g.ids) && FeasibleAmong(w, w.store, records, able)
      modifies w, control
      ensures !control.mutationInFlight && Accounted(w, a, first, g', deadline) && StillSettled(w, a, first, g')
      ensures SyncedAmong(w, w.store, records, a, g'.done, g'.ids) && FeasibleAmong(w, w.store, records, able - {i})
      ensures g'.done == if v.Done? then g.done + {i} else g.done - {i}
      ensures g.ids.Keys <= g'.ids.Keys <= g.ids.Keys + {i}
      ensures |g.writes| <= |g'.writes| <= |g.writes| + 1
      ensures AckedCount(g'.writes, true) == AckedCount(g.writes, true) + if v == Done(Created) then 1 else 0
      ensures AckedCount(g'.writes, false) == AckedCount(g.writes, false) + if v == Done(Updated) then 1 else 0
      ensures old(w.troubles) <= w.troubles
      ensures w.troubles == old(w.troubles) && w.now < deadline && i in able ==> v.Done?
      ensures old(w.now) <= w.now <= Later(old(w.now), deadline + w.requestTimeout)
      ensures old(control.stopRequested) ==> control.stopRequested
      ensures v.Failed? ==> v.stage != CycleDeadline
    {
      assert i in able ==> Feasible(w, w.store, records[i]);
      var r := records[i];
      ghost var zone, added;
      v, zone, added := SyncRecord(w, control, Resources(records), r, ForRecord(a, r).value, deadline);
      g' := Progress(
        g.writes + added, g.log + Resolved(r, zone),
        if v.Done? then g.done + {i} else g.done - {i}, NowIn(g.ids, i, zone));
      VisitSettles(w, records, i, zone, old(w.store), w.store, a, g.done, g.ids, v.Done?);
      OthersStayFeasible(w, records, i, zone, old(w.store), w.store, able);
      AccountedNext(w, a, first, g, g', i, zone, added, old(w.now), deadline);
      SettledNext(w, a, first, g, g', i, zone, old(w.store), added);
      AckedAdds(g.writes, added, true);
      AckedAdds(g.writes, added, false);
    }

    /** The step of `Accounted`. */
    lemma AccountedNext(
        w: World, a: DiscoveredAddresses, first: Outset, g: Progress, g': Progress, i: nat, zone: Option<string>,
        added: seq<Issued>, earlier: nat, deadline: nat)
      requires i < |records| && ForRecord(a, records[i]).Some? && earlier <= w.now
      requires zone.Some? ==> InZone(w, zone.value, records[i])
      requires g'.writes == g.writes + added && g'.log == g.log + Resolved(records[i], zone)
      requires g'.ids == NowIn(g.ids, i, zone) && Logged(records, g.log, g.ids)
      requires w.journal == first.journal + g.writes + added
      requires w.resolutions == first.resolutions + g.log + Resolved(records[i], zone)
      requires Disciplined(Homes(w, records, a), w.requestTimeout, g.writes, earlier, deadline)
      requires var order := VisitOrder(records[i], ForRecord(a, records[i]).value, zone);
               Wrote(order, w.requestTimeout, added, earlier, w.now, deadline)
      ensures Accounted(w, a, first, g', deadline)
    {
      assert first.journal + g'.writes == (first.journal + g.writes) + added;
      assert first.resolutions + g'.log == (first.resolutions + g.log) + Resolved(records[i], zone);
      LoggedNext(records, g.log, g.ids, i, zone);
      VisitIsDisciplined(w, records, a, i, zone, g.writes, added, earlier, w.now, deadline);
    }

    /** The step of `StillSettled`. */
    lemma SettledNext(
        w: World, a: DiscoveredAddresses, first: Outset, g: Progress, g': Progress, i: nat, zone: Option<string>,
        before: Store, added: seq<Issued>)
      requires Ready() && i < |records| && i !in g.ids && ForRecord(a, records[i]).Some?
      requires g'.ids == NowIn(g.ids, i, zone) && g'.writes == g.writes + added
      requires first.settled && Agrees(g.ids, first.known) ==>
                 AllSynced(w, before, records, a, first.known) && g.writes == []
      requires VisitKept(w, Resources(records), records[i], zone, before, w.store)
      requires var address := ForRecord(a, records[i]).value;
               zone.Some? && Converged(before, ConfigSlot(zone.value, records[i]), records[i], address) ==>
                 added == [] && Converged(w.store, ConfigSlot(zone.value, records[i]), records[i], address)
      requires zone.None? ==> added == []
      ensures StillSettled(w, a, first, g')
    {
      if first.settled && Agrees(g'.ids, first.known) {
        forall j | j in g.ids
          ensures j in first.known && first.known[j] == g.ids[j]
        {
          assert j in g'.ids && g'.ids[j] == g.ids[j];
        }
        assert Synced(w, before, records[i], first.known[i], a);
        KnownStaysSynced(w, records, i, zone, before, w.store, a, first.known);
      }
    }

    /** The counters are those of the acknowledged writes. */
    ghost predicate Written(report: CycleReport, writes: seq<Issued>) {
      report.created == AckedCount(writes, true) && report.updated == AckedCount(writes, false)
    }

    /** What the report says after `turns` turns. */
    ghost predicate Reporting(a: DiscoveredAddresses, start: nat, turns: nat, report: CycleReport, g: Progress) {
      var n := |records|;
      && start < n && turns <= n && report.records == n && !report.interrupted
      && (DiscoveryFailures(a) != [] ==> report.failures != [])
      && (report.failures == [] ==> Successes(report) == turns && Covers(g.done, start, n, turns))
      && Successes(report) <= turns && Written(report, g.writes) && |g.writes| <= turns
    }

    lemma ReportingNext(
        a: DiscoveredAddresses, start: nat, turns: nat, report: CycleReport, g: Progress, v: Visit, g': Progress)
      requires Reporting(a, start, turns, report, g) && turns < |records| && |g'.writes| <= |g.writes| + 1
      requires var i := Visited(start, turns, |records|);
               g'.done == if v.Done? then g.done + {i} else g.done - {i}
      requires AckedCount(g'.writes, true) == AckedCount(g.writes, true) + if v == Done(Created) then 1 else 0
      requires AckedCount(g'.writes, false) == AckedCount(g.writes, false) + if v == Done(Updated) then 1 else 0
      ensures Reporting(a, start, turns + 1, Tally(report, v), g')
    {
      if v.Done? && report.failures == [] {
        CoversMore(g.done, g'.done, start, |records|, turns);
      }
    }

    /** What holds after `turns` turns of the record loop. */
    ghost predicate Underway(
      w: World, control: CycleControl, a: DiscoveredAddresses, start: nat, turns: nat, deadline: nat,
      report: CycleReport, first: Outset, g: Progress)
      reads w, control
    {
      var n := |records|;
      && start < n && turns <= n && !control.mutationInFlight
      && Reporting(a, start, turns, report, g)
      && SyncedAmong(w, w.store, records, a, g.done, g.ids) && g.ids.Keys !! Remaining(start, n, turns)
      && Accounted(w, a, first, g, deadline) && StillSettled(w, a, first, g)
      && first.now <= w.now <= Later(first.now, deadline + w.requestTimeout)
      && (first.stopped ==> control.stopRequested && g.writes == [])
      && (first.capable ==> FeasibleAmong(w, w.store, records, Remaining(start, n, turns)))
      && first.troubles <= w.troubles
      && (first.capable && w.troubles == first.troubles && w.now < deadline ==> report.failures == DiscoveryFailures(a))
    }

    /** One turn of the record loop: the record is skipped when its address is not known. */
    method TakeTurn(
        w: World, control: CycleControl, a: DiscoveredAddresses, start: nat, turns: nat, deadline: nat,
        report: CycleReport, ghost first: Outset, ghost g: Progress)
      returns (i: nat, report': CycleReport, stop: bool, ghost g': Progress)
      requires Ready() && CoversFamilies(a, records)
      requires Underway(w, control, a, start, turns, deadline, report, first, g)
      requires turns < |records| && !control.stopRequested
      modifies w, control
      ensures i == Visited(start, turns, |records|)
      ensures Underway(w, control, a, start, turns + 1, deadline, report', first, g')
      ensures FailedOnce(report.failures, report'.failures, stop)
      ensures first.capable && w.troubles == first.troubles && w.now < deadline ==> !stop
    {
      i := IndexAt(start, turns, |records|);
      RemainingNext(start, |records|, turns);
      report', stop, g' := report, false, g;
      if ForRecord(a, records[i]).None? {
        MissingAddressWasReported(a, records, i);
      } else {
        ghost var able := if first.capable then Remaining(start, |records|, turns) else {};
        var v;
        v, g' := VisitRecord(w, control, a, i, deadline, first, g, able);
        report' := Tally(report, v);
        stop := StopsCycle(v);
        ReportingNext(a, start, turns, report, g, v, g');
      }
    }

    /** The record loop: turns are taken until all are done, a failure stops the cycle, or stop is requested. */
    method TakeTurns(
        w: World, control: CycleControl, a: DiscoveredAddresses, start: nat, deadline: nat, initial: CycleReport,
        ghost first: Outset)
      returns (report: CycleReport, visited: seq<nat>, interrupted: bool, ghost g: Progress)
      requires Ready() && CoversFamilies(a, records)
      requires Underway(w, control, a, start, 0, deadline, initial, first, Progress([], [], {}, map[]))
      requires StopsAtLast(initial.failures, false)
      modifies w, control
      ensures |visited| <= |records|
      ensures Underway(w, control, a, start, |visited|, deadline, report, first, g)
      ensures InRotation(visited, start, |records|)
      ensures interrupted ==> control.stopRequested
      ensures !old(control.stopRequested) ==> visited != []
      ensures StoppedForCause(report.(interrupted := interrupted), |visited|)
      ensures report.failures == [] && !interrupted ==> |visited| == |records|
      ensures first.capable && w.troubles == first.troubles && w.now < deadline && !interrupted ==>
                |visited| == |records|
    {
      report, visited, interrupted, g := initial, [], false, Progress([], [], {}, map[]);
      var stop := false;
      while |visited| < |records| && !stop && !interrupted
        invariant |visited| <= |records|
        invariant Underway(w, control, a, start, |visited|, deadline, report, first, g)
        invariant visited == FirstVisits(start, |records|, |visited|)
        invariant StopsAtLast(report.failures, stop)
        invariant interrupted ==> control.stopRequested
        invariant visited == [] ==> !stop && control.stopRequested == old(control.stopRequested)
        invariant first.capable && w.troubles == first.troubles && w.now < deadline ==> !stop
        decreases |records| - |visited|, !interrupted
      {
        if control.stopRequested {
          interrupted := true;
        } else {
          var i;
          ghost var failures := report.failures;
          i, report, stop, g := TakeTurn(w, control, a, start, |visited|, deadline, report, first, g);
          FailedOnceStops(failures, report.failures, stop);
          visited := visited + [i];
        }
      }
    }

    /**
     * No visit follows a failure that calls for a stop, which is a deadline, a refused token or a rate
     * limit; and a cycle that does not visit every record has such a failure, or was interrupted.
     */
    ghost predicate StoppedForCause(report: CycleReport, visits: nat) {
      || StopsAtLast(report.failures, true)
      || (StopsAtLast(report.failures, false) && (visits == |records| || report.interrupted))
    }

    /**
     * What holds at the end of a cycle: success means that every record is up to date, with the
     * address of its own family, and counted; the counters are those of the acknowledged writes;
     * every write carries what a configured record is owed, to that record's slot, in time; no
     * write is in flight, and a cycle is reported as interrupted only if a stop was requested.
     */
    ghost predicate Ended(
      w: World, control: CycleControl, a: DiscoveredAddresses, deadline: nat, report: CycleReport, g: Progress)
      reads w, control
    {
      && !control.mutationInFlight && (report.interrupted ==> control.stopRequested)
      && report.records == |records| && report.kept + report.updated + report.created <= |records|
      && (report.IsSuccess() ==> report.kept + report.updated + report.created == |records|)
      && (report.IsSuccess() ==> AllSynced(w, w.store, records, a, g.ids) && AllUpToDate(w.store, records, g.ids, a))
      && Written(report, g.writes) && |g.writes| <= |records| && Logged(records, g.log, g.ids)
      && Disciplined(Homes(w, records, a), w.requestTimeout, g.writes, w.now, deadline)
    }

    /** The report, the order of visits and the work of a cycle that begins at index `start`. */
    method VisitRecords(
        w: World, control: CycleControl, a: DiscoveredAddresses, start: nat, deadline: nat,
        ghost known: map<nat, string>)
      returns (report: CycleReport, visited: seq<nat>, ghost g: Progress)
      requires Ready() && start < |records| && CoversFamilies(a, records) && !control.mutationInFlight
      requires OfTheirFamilies(a)
      modifies w, control
      ensures Ended(w, control, a, deadline, report, g) && (old(control.stopRequested) ==> control.stopRequested)
      ensures !old(control.stopRequested) ==> visited != []
      ensures AllSynced(w, old(w.store), records, a, known) && Agrees(g.ids, known) ==> g.writes == []
      ensures w.journal == old(w.journal) + g.writes && w.resolutions == old(w.resolutions) + g.log
      ensures old(w.now) <= w.now <= Later(old(w.now), deadline + w.requestTimeout)
      ensures old(control.stopRequested) ==> g.writes == []
      ensures old(w.troubles) <= w.troubles
      ensures (w.troubles == old(w.troubles) && w.now < deadline && !control.stopRequested
               && AllFeasible(w, old(w.store), records) && DiscoveryFailures(a) == []) ==> report.IsSuccess()
      ensures InRotation(visited, start, |records|)
      ensures StoppedForCause(report, |visited|)
      ensures report.IsSuccess() ==> |visited| == |records|
    {
      ghost var first := Outset(
        w.now, w.troubles, w.journal, w.resolutions, control.stopRequested, known,
        AllSynced(w, w.store, records, a, known), AllFeasible(w, w.store, records));
      report := EmptyReport(|records|).(failures := DiscoveryFailures(a));
      DiscoveryGoesOn(a);
      var interrupted;
      report, visited, interrupted, g := TakeTurns(w, control, a, start, deadline, report, first);
      if |visited| == |records| && report.failures == [] {
        WholeRotationCovers(g.done, start, |records|);
        EachIsUpToDate(w, w.store, a, g.ids);
      }
      report := report.(interrupted := interrupted);
    }

    /**
     * `run_cycle_until`, run under the guard over the configured resources.
     *
     * A successful report means that every configured record is present exactly once with the
     * discovered address of its family, TTL and proxy flag, in the zone to which its own was resolved in this
     * cycle, and that the three counters add up. A cycle that starts from a synced store, and
     * finds the zones where they were, writes nothing. In all cases the writes go only to slots of
     * configured records, and the cycle ends within one request timeout of its deadline. A cycle
     * fails only for cause: when no request fails, the deadline is not reached, no stop is
     * requested, and every record exists at most once, and once or with leave to be created, it
     * succeeds.
     */
    method RunCycleUntil(w: World, control: CycleControl, deadline: nat, ghost known: map<nat, string>)
      returns (report: CycleReport, visited: seq<nat>, ghost addresses: DiscoveredAddresses, ghost g: Progress)
      requires Ready() && !control.mutationInFlight
      modifies w, control, this`cursor
      ensures Ended(w, control, addresses, deadline, report, g)
      ensures old(control.stopRequested) ==> control.stopRequested
      ensures cursor != old(cursor) && !old(control.stopRequested) ==> visited != []
      ensures old(w.troubles) <= w.troubles && (cursor == old(cursor) ==> old(w.troubles) < w.troubles)
      ensures OfTheirFamilies(addresses)
      ensures AllSynced(w, old(w.store), records, addresses, known) && Agrees(g.ids, known) ==> g.writes == []
      ensures w.journal == old(w.journal) + g.writes && w.resolutions == old(w.resolutions) + g.log
      ensures old(w.now) <= w.now <= Later(old(w.now), deadline + w.requestTimeout)
      ensures old(control.stopRequested) ==> g.writes == []
      ensures (w.troubles == old(w.troubles) && w.now < deadline && !control.stopRequested
               && AllFeasible(w, old(w.store), records) && BothFound(addresses)) ==> report.IsSuccess()
      ensures InRotation(visited, Leader(old(cursor), |records|), |records|)
      ensures StoppedForCause(report, |visited|)
      ensures report.IsSuccess() ==> |visited| == |records|
      ensures || cursor == (old(cursor) + 1) % CURSOR_LIMIT
              || (cursor == old(cursor) && report == EmptyReport(|records|).(failures := [DeadlineFailure()]))
    {
      addresses := DiscoveredAddresses(None, None);
      visited, g := [], Progress([], [], {}, map[]);
      var found := DiscoverRequired(w, control, Resources(records), records, deadline);
      if found.None? {
        report := EmptyReport(|records|).(failures := [DeadlineFailure()]);
        return;
      }
      addresses := found.value;
      if AllSynced(w, old(w.store), records, addresses, known) {
        SyncedThroughInterference(w, records, old(w.store), w.store, addresses, known);
      }
      if AllFeasible(w, old(w.store), records) {
        FeasibleThroughInterference(w, records, old(w.store), w.store);
      }
      var start := StartIndex(cursor, |records|);
      cursor := (cursor + 1) % CURSOR_LIMIT;
      report, visited, g := VisitRecords(w, control, found.value, start, deadline, known);
    }

    lemma EachIsUpToDate(w: World, store: Store, a: DiscoveredAddresses, ids: map<nat, string>)
      requires OfTheirFamilies(a) && AllSynced(w, store, records, a, ids)
      ensures AllUpToDate(store, records, ids, a)
    {
      forall i: nat | i < |records|
        ensures i in ids && UpToDateAt(store, records[i], ids[i], a)
      {
        assert Synced(w, store, records[i], ids[i], a);
        SyncedExactly(w, store, records[i], ids[i], a);
      }
    }

    /**
     * The cycles of the daemon, one per deadline, each with a control of its own and with other
     * writers active in between. `visits` lists what each cycle that got past discovery visited:
     * none of them visits nothing, and each begins where the cursor calls for. A cycle that does
     * not get that far accounts for a failed request.
     */
    method RunCycles(w: World, deadlines: seq<nat>) returns (visits: seq<seq<nat>>)
      requires Ready() && cursor < CURSOR_LIMIT
      modifies w, this`cursor
      ensures |visits| <= |deadlines| <= |visits| + (w.troubles - old(w.troubles))
      ensures LedInTurn(visits, old(cursor), |records|)
      ensures cursor == CursorAfter(old(cursor), |visits|)
    {
      visits := [];
      var i := 0;
      while i < |deadlines|
        invariant 0 <= i <= |deadlines| && |visits| <= i <= |visits| + (w.troubles - old(w.troubles))
        invariant cursor == CursorAfter(old(cursor), |visits|)
        invariant LedInTurn(visits, old(cursor), |records|)
      {
        w.Interfere(Resources(records), Later(w.now, deadlines[i]));
        var control := new CycleControl();
        var before := cursor;
        var report, visited;
        ghost var addresses, g;
        report, visited, addresses, g := RunCycleUntil(w, control, deadlines[i], map[]);
        if cursor != before {
          LedNext(visits, old(cursor), |records|, visited);
          CursorAdvances(old(cursor), |visits|);
          visits := visits + [visited];
        }
        i := i + 1;
      }
    }

    /**
     * Idempotence: when a successful cycle is followed by another that finds the same addresses,
     * and the zones where the first found them, under the same guard, the second sends nothing and
     * finds every record unchanged.
     */
    method RunTwice(w: World, first: CycleControl, second: CycleControl, d1: nat, d2: nat)
      returns (r1: CycleReport, r2: CycleReport, ghost a1: DiscoveredAddresses, ghost a2: DiscoveredAddresses,
               ghost g1: Progress, ghost g2: Progress)
      requires Ready() && !first.mutationInFlight && !second.mutationInFlight
      modifies w, first, second, this`cursor
      ensures r1.IsSuccess() && a1 == a2 && Agrees(g2.ids, g1.ids) ==>
                g2.writes == [] && r2.updated == 0 && r2.created == 0
      ensures r1.IsSuccess() && a1 == a2 && Agrees(g2.ids, g1.ids) && r2.IsSuccess() ==> r2.kept == |records|
    {
      var v1, v2;
      r1, v1, a1, g1 := RunCycleUntil(w, first, d1, map[]);
      ghost var after := w.store;
      w.Interfere(Resources(records), Later(w.now, d2));
      if AllSynced(w, after, records, a1, g1.ids) {
        SyncedThroughInterference(w, records, after, w.store, a1, g1.ids);
      }
      r2, v2, a2, g2 := RunCycleUntil(w, second, d2, g1.ids);
    }
  }
}
