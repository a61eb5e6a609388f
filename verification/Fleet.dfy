/**
 * Any number of Cirrusync processes that share a lock root and a DNS account, as interleaved steps.
 * A process that holds its guard resolves a zone, looks a record up, rechecks a missing one, and
 * sends at most one write; the write may take effect and still be reported as a failure.
 */
module Fleet {
  import opened Text
  import opened Configuration
  import opened RuntimeLocks
  import opened DnsStore

  /** One configuration per lock attempt, and the name of every zone that can be resolved. */
  datatype Setup = Setup(configs: seq<seq<RecordConfig>>, zoneName: map<string, string>)

  datatype Work =
    | Resting
    | Resolved(i: nat, zoneId: string)
    | SawNone(i: nat, zoneId: string)
    | Cleared(i: nat, zoneId: string)
    | Found(i: nat, key: RecordKey, seen: DnsRecord)
    | Sent(i: nat, m: Mutation, applied: bool)

  datatype State = State(locks: Locks, work: seq<Work>, store: Store)

  datatype FleetStep =
    | LockMove(a: LockStep)
    | ResolveZone(p: nat, i: nat, zoneId: string)
    | Look(p: nat)
    | GiveUp(p: nat)
    | SendCreate(p: nat, address: Address)
    | SendUpdate(p: nat, address: Address)
    | SendProbe(p: nat)
    | Serve(p: nat, newKey: RecordKey)
    | Answer(p: nat)

  predicate ValidSetup(c: Setup) {
    forall p {:trigger ValidRecords(c.configs[p])} :: 0 <= p < |c.configs| ==> ValidRecords(c.configs[p])
  }

  /** Zone `id` is one that record `i` of process `p` may resolve to: it bears the record's zone name. */
  predicate MayResolve(c: Setup, p: nat, i: nat, zoneId: string) {
    && p < |c.configs| && i < |c.configs[p]|
    && zoneId in c.zoneName && c.zoneName[zoneId] == c.configs[p][i].zone
  }

  function WorkSlot(c: Setup, p: nat, i: nat, zoneId: string): Slot
    requires MayResolve(c, p, i, zoneId)
  {
    ConfigSlot(zoneId, c.configs[p][i])
  }

  /** The outcome of a lookup of `slot`: any failure, or what the store holds right now. */
  predicate LookedUp(store: Store, slot: Slot, i: nat, whenNone: Work, w: Work) {
    || w == Resting
    || (w == whenNone && Matching(store, slot) == {})
    || (w.Found? && w.i == i && Matching(store, slot) == {w.key} && w.key in store && w.seen == store[w.key])
  }

  predicate WorkMove(c: Setup, s: State, a: FleetStep, p: nat, w: Work, store: Store)
    requires p < |s.work|
  {
    var now := s.work[p];
    match a
    case ResolveZone(_, i, zoneId) =>
      now == Resting && MayResolve(c, p, i, zoneId) && w == Resolved(i, zoneId) && store == s.store
    case Look(_) =>
      && store == s.store
      && (now.Resolved? || now.SawNone?)
      && MayResolve(c, p, now.i, now.zoneId)
      && var slot := WorkSlot(c, p, now.i, now.zoneId);
         if now.Resolved? then LookedUp(store, slot, now.i, SawNone(now.i, now.zoneId), w)
         else c.configs[p][now.i].createIfMissing && LookedUp(store, slot, now.i, Cleared(now.i, now.zoneId), w)
    case GiveUp(_) => !now.Sent? && w == Resting && store == s.store
    case SendCreate(_, address) =>
      && now.Cleared? && MayResolve(c, p, now.i, now.zoneId) && store == s.store
      && w == Sent(now.i, Create(now.zoneId, PayloadFor(c.configs[p][now.i], address)), false)
    case SendUpdate(_, address) =>
      && now.Found? && MayResolve(c, p, now.i, now.key.zoneId) && store == s.store
      && w == Sent(now.i, Update(now.key, PayloadFor(c.configs[p][now.i], address)), false)
    case SendProbe(_) =>
      now.Found? && w == Sent(now.i, Probe(now.key, now.seen), false) && store == s.store
    case Serve(_, newKey) =>
      && now.Sent? && !now.applied && w == now.(applied := true)
      && (now.m.Create? ==> newKey !in s.store && newKey.zoneId == now.m.zoneId)
      && store == Served(s.store, now.m, newKey)
    case Answer(_) => now.Sent? && w == Resting && store == s.store
    case LockMove(_) => false
  }

  predicate FleetMove(c: Setup, s: State, a: FleetStep, t: State) {
    match a
    case LockMove(l) =>
      && Step(s.locks, l, t.locks)
      && t.work == s.work && t.store == s.store
      && (l.Release? ==> l.p < |s.work| && s.work[l.p] == Resting)
    case _ =>
      && a.p < |s.work| && a.p < |s.locks.stage|
      && s.locks.stage[a.p].Guarded?
      && t.locks == s.locks
      && |t.work| == |s.work|
      && t.work == s.work[a.p := t.work[a.p]]
      && WorkMove(c, s, a, a.p, t.work[a.p], t.store)
  }

  predicate FleetStart(c: Setup, s: State) {
    && ValidSetup(c)
    && Start(s.locks)
    && |s.locks.want| == |c.configs| == |s.work|
    && (forall p :: 0 <= p < |c.configs| ==> s.locks.want[p] == LockOrder(c.configs[p]) && s.work[p] == Resting)
  }

  // ----- What every step keeps -----

  /** What process `p` believes about the store while it prepares or waits for a write. */
  predicate Informed(c: Setup, store: Store, p: nat, w: Work) {
    match w
    case Resting => true
    case Resolved(i, zoneId) => MayResolve(c, p, i, zoneId)
    case SawNone(i, zoneId) => MayResolve(c, p, i, zoneId)
    case Cleared(i, zoneId) => MayResolve(c, p, i, zoneId) && Matching(store, WorkSlot(c, p, i, zoneId)) == {}
    case Found(i, key, seen) =>
      && MayResolve(c, p, i, key.zoneId)
      && key in store && store[key] == seen
      && RecordSlot(key, seen) == WorkSlot(c, p, i, key.zoneId)
    case Sent(i, m, applied) =>
      && MayResolve(c, p, i, MutationSlot(m).zoneId)
      && MutationSlot(m) == WorkSlot(c, p, i, MutationSlot(m).zoneId)
      && (m.Create? ==> m.zoneId == MutationSlot(m).zoneId && (applied || Matching(store, MutationSlot(m)) == {}))
      && (!m.Create? ==> m.key in store && RecordSlot(m.key, store[m.key]) == MutationSlot(m))
  }

  /** Every process has the locks of its own configuration, and works only under its guard. */
  ghost predicate Wired(c: Setup, s: State) {
    && ValidSetup(c)
    && LockInv(s.locks)
    && |s.locks.want| == |c.configs| == |s.work|
    && (forall p :: 0 <= p < |c.configs| ==> s.locks.want[p] == LockOrder(c.configs[p]))
    && (forall p: nat :: p < |s.work| && s.work[p] != Resting ==> s.locks.stage[p].Guarded?)
  }

  ghost predicate AllInformed(c: Setup, s: State) {
    forall p: nat :: p < |s.work| ==> Informed(c, s.store, p, s.work[p])
  }

  ghost predicate FleetInv(c: Setup, s: State) {
    Wired(c, s) && AllInformed(c, s)
  }

  /** Equal slots come from equal resources, hence from the same lock file. */
  lemma SameSlotSameLock(c: Setup, p: nat, i: nat, q: nat, j: nat, zoneId: string)
    requires ValidSetup(c)
    requires MayResolve(c, p, i, zoneId) && MayResolve(c, q, j, zoneId)
    requires WorkSlot(c, p, i, zoneId) == WorkSlot(c, q, j, zoneId)
    ensures ResourceOf(c.configs[p][i]) == ResourceOf(c.configs[q][j])
  {
    ConfiguredRecord(c, p, i);
    ConfiguredRecord(c, q, j);
    SameSlotSameName(c.configs[p][i], c.configs[q][j], zoneId);
  }

  lemma ConfiguredRecord(c: Setup, p: nat, i: nat)
    requires ValidSetup(c) && p < |c.configs| && i < |c.configs[p]|
    ensures ResourceOf(c.configs[p][i]) == Named(c.configs[p][i]) && Tidy(c.configs[p][i])
  {
    assert ValidRecords(c.configs[p]);
    assert ValidRecord(c.configs[p][i]);
    ValidRecordIsCanonical(c.configs[p][i]);
  }

  lemma SameSlotSameName(r: RecordConfig, t: RecordConfig, zoneId: string)
    requires Tidy(r) && Tidy(t) && r.zone == t.zone && ConfigSlot(zoneId, r) == ConfigSlot(zoneId, t)
    ensures Named(r) == Named(t)
  {
    assert |Lower(TypeText(A))| != |Lower(TypeText(AAAA))|;
  }

  /** Two guards held at once cover different resources. */
  lemma GuardsCoverDifferentResources(c: Setup, s: State, p: nat, i: nat, q: nat, j: nat)
    requires FleetInv(c, s)
    requires p < |c.configs| && q < |c.configs| && p != q && i < |c.configs[p]| && j < |c.configs[q]|
    requires s.locks.stage[p].Guarded? && s.locks.stage[q].Guarded?
    ensures ResourceOf(c.configs[p][i]) != ResourceOf(c.configs[q][j])
  {
    var h, g := ResourceLockHash(ResourceOf(c.configs[p][i])), ResourceLockHash(ResourceOf(c.configs[q][j]));
    assert h in s.locks.want[p] && g in s.locks.want[q];
    assert Ownership(s.locks, p) && Ownership(s.locks, q);
    assert h in Held(s.locks, p) && g in Held(s.locks, q);
    assert h != g;
  }

  /** The record that a busy process is about, with the zone it resolved to. */
  function Target(w: Work): (nat, string)
    requires w != Resting
  {
    match w
    case Resolved(i, zoneId) => (i, zoneId)
    case SawNone(i, zoneId) => (i, zoneId)
    case Cleared(i, zoneId) => (i, zoneId)
    case Found(i, key, _) => (i, key.zoneId)
    case Sent(i, m, _) => (i, MutationSlot(m).zoneId)
  }

  lemma BusyProcessesUseDifferentSlots(c: Setup, s: State, p: nat, q: nat)
    requires FleetInv(c, s) && p < |s.work| && q < |s.work| && p != q
    requires s.work[p] != Resting && s.work[q] != Resting
    ensures var (i, y) := Target(s.work[p]); var (j, z) := Target(s.work[q]);
            MayResolve(c, p, i, y) && MayResolve(c, q, j, z) && WorkSlot(c, p, i, y) != WorkSlot(c, q, j, z)
  {
    var (i, y) := Target(s.work[p]);
    var (j, z) := Target(s.work[q]);
    assert Informed(c, s.store, p, s.work[p]) && Informed(c, s.store, q, s.work[q]);
    GuardsCoverDifferentResources(c, s, p, i, q, j);
    if y == z && WorkSlot(c, p, i, y) == WorkSlot(c, q, j, z) {
      SameSlotSameLock(c, p, i, q, j, y);
    }
  }

  /** A write to another slot leaves alone whatever a busy process has seen. */
  lemma OtherWriteKeepsInformed(c: Setup, store: Store, m: Mutation, newKey: RecordKey, p: nat, w: Work)
    requires Informed(c, store, p, w) && OnTarget(store, m, newKey)
    requires w != Resting ==> var (i, y) := Target(w); MayResolve(c, p, i, y) && WorkSlot(c, p, i, y) != MutationSlot(m)
    ensures Informed(c, Served(store, m, newKey), p, w)
  {
    if w != Resting {
      var (i, y) := Target(w);
      var slot := WorkSlot(c, p, i, y);
      ServedKeepsOtherSlots(store, m, newKey, slot);
      SameViewSameMatches(store, Served(store, m, newKey), slot);
      if w.Found? {
        assert w.key in Matching(store, slot);
      } else if w.Sent? && !w.m.Create? {
        assert w.m.key in Matching(store, slot);
      }
    }
  }

  /** The write in flight at `p` goes where `p` looked. */
  lemma SentIsOnTarget(c: Setup, s: State, p: nat, w: Work, a: FleetStep, store: Store)
    requires p < |s.work| && Informed(c, s.store, p, s.work[p])
    requires a.Serve? && WorkMove(c, s, a, p, w, store)
    ensures OnTarget(s.store, s.work[p].m, a.newKey)
  {
  }

  /** Lookups and served writes give the process that makes them correct information. */
  lemma MoverStaysInformed(c: Setup, s: State, a: FleetStep, p: nat, w: Work, store: Store)
    requires p < |s.work| && Informed(c, s.store, p, s.work[p])
    requires WorkMove(c, s, a, p, w, store)
    ensures Informed(c, store, p, w)
  {
    match a
    case Look(_) =>
      if w.Found? {
        assert w.key in Matching(s.store, WorkSlot(c, p, w.i, s.work[p].zoneId));
      }
    case Serve(_, newKey) =>
      SentIsOnTarget(c, s, p, w, a, store);
      ServedMatches(s.store, s.work[p].m, newKey);
    case _ =>
  }

  lemma StepKeepsWired(c: Setup, s: State, a: FleetStep, t: State)
    requires Wired(c, s) && FleetMove(c, s, a, t)
    ensures Wired(c, t)
  {
    if a.LockMove? {
      StepKeepsLockInv(s.locks, a.a, t.locks);
    }
  }

  lemma BystanderStaysInformed(c: Setup, s: State, a: FleetStep, t: State, p: nat)
    requires FleetInv(c, s) && FleetMove(c, s, a, t) && !a.LockMove? && p < |s.work| && p != a.p
    ensures p < |t.work| && Informed(c, t.store, p, t.work[p])
  {
    assert Informed(c, s.store, p, s.work[p]);
    if a.Serve? {
      SentIsOnTarget(c, s, a.p, t.work[a.p], a, t.store);
      if s.work[p] != Resting {
        BusyProcessesUseDifferentSlots(c, s, p, a.p);
      }
      OtherWriteKeepsInformed(c, s.store, s.work[a.p].m, a.newKey, p, s.work[p]);
    }
  }

  lemma StepKeepsInformed(c: Setup, s: State, a: FleetStep, t: State)
    requires FleetInv(c, s) && FleetMove(c, s, a, t)
    ensures AllInformed(c, t)
  {
    if !a.LockMove? {
      assert Informed(c, s.store, a.p, s.work[a.p]);
      MoverStaysInformed(c, s, a, a.p, t.work[a.p], t.store);
      forall p: nat | p < |t.work| && p != a.p
        ensures Informed(c, t.store, p, t.work[p])
      {
        BystanderStaysInformed(c, s, a, t, p);
      }
    }
  }

  ghost predicate CanMove(c: Setup, s: State, t: State) {
    exists a :: FleetMove(c, s, a, t)
  }

  ghost predicate FleetRun(c: Setup, run: seq<State>) {
    && |run| > 0
    && FleetStart(c, run[0])
    && forall i :: 0 <= i < |run| - 1 ==> CanMove(c, run[i], run[i + 1])
  }

  lemma StartIsInvariant(c: Setup, s: State)
    requires FleetStart(c, s)
    ensures FleetInv(c, s)
  {
    forall p: nat | p < |s.locks.stage|
      ensures Ownership(s.locks, p) && Blamed(s.locks, p)
    {
      assert Held(s.locks, p) == FirstLocks(s.locks.want[p], 0) == {};
    }
  }

  lemma {:induction false} RunKeepsFleetInv(c: Setup, run: seq<State>, n: nat)
    requires FleetRun(c, run) && n < |run|
    ensures FleetInv(c, run[n])
  {
    if n == 0 {
      StartIsInvariant(c, run[0]);
    } else {
      RunKeepsFleetInv(c, run, n - 1);
      assert CanMove(c, run[n - 1], run[n - 1 + 1]);
      var a :| FleetMove(c, run[n - 1], a, run[n]);
      StepKeepsWired(c, run[n - 1], a, run[n]);
      StepKeepsInformed(c, run[n - 1], a, run[n]);
    }
  }

  // ----- Main results -----

  /**
   * In every reachable state a write in flight is covered by its sender's guard, that is, the lock
   * file of its resource belongs to the sender, and no two processes are writing to one slot.
   */
  lemma OneWriterPerResource(c: Setup, run: seq<State>, n: nat, p: nat, q: nat)
    requires FleetRun(c, run) && n < |run|
    requires p < |run[n].work| && run[n].work[p].Sent?
    requires q < |run[n].work| && run[n].work[q].Sent? && p != q
    ensures MutationSlot(run[n].work[p].m) != MutationSlot(run[n].work[q].m)
  {
    RunKeepsFleetInv(c, run, n);
    WritersUseDifferentSlots(c, run[n], p, q);
  }

  lemma WritersUseDifferentSlots(c: Setup, s: State, p: nat, q: nat)
    requires FleetInv(c, s) && p < |s.work| && q < |s.work| && p != q
    requires s.work[p].Sent? && s.work[q].Sent?
    ensures MutationSlot(s.work[p].m) != MutationSlot(s.work[q].m)
  {
    assert Informed(c, s.store, p, s.work[p]) && Informed(c, s.store, q, s.work[q]);
    BusyProcessesUseDifferentSlots(c, s, p, q);
  }

  lemma WritesAreGuarded(c: Setup, run: seq<State>, n: nat, p: nat)
    requires FleetRun(c, run) && n < |run|
    requires p < |run[n].work| && run[n].work[p].Sent?
    ensures var s := run[n]; var w := s.work[p];
            && MayResolve(c, p, w.i, MutationSlot(w.m).zoneId)
            && MutationSlot(w.m) == WorkSlot(c, p, w.i, MutationSlot(w.m).zoneId)
            && p < |s.locks.stage| && s.locks.stage[p].Guarded?
            && var h := ResourceLockHash(ResourceOf(c.configs[p][w.i])); h in s.locks.owner && s.locks.owner[h] == p
  {
    RunKeepsFleetInv(c, run, n);
    var s := run[n];
    var w := s.work[p];
    assert Informed(c, s.store, p, w);
    var h := ResourceLockHash(ResourceOf(c.configs[p][w.i]));
    assert h in s.locks.want[p];
    assert Ownership(s.locks, p);
    assert h in Held(s.locks, p);
  }

  /** One step adds a record to a slot only when the slot was empty, and never removes one. */
  lemma StepAddsOnlyToEmptySlots(c: Setup, s: State, a: FleetStep, t: State, slot: Slot)
    requires AllInformed(c, s) && FleetMove(c, s, a, t)
    ensures Matching(t.store, slot) == Matching(s.store, slot)
         || (Matching(s.store, slot) == {} && exists k :: Matching(t.store, slot) == {k})
  {
    if a.Serve? {
      var m := s.work[a.p].m;
      assert Informed(c, s.store, a.p, s.work[a.p]);
      SentIsOnTarget(c, s, a.p, t.work[a.p], a, t.store);
      ServedSlotGrowth(s.store, m, a.newKey, slot);
    }
  }

  lemma ServedSlotGrowth(store: Store, m: Mutation, newKey: RecordKey, slot: Slot)
    requires OnTarget(store, m, newKey)
    ensures Matching(Served(store, m, newKey), slot)
         == Matching(store, slot) + (if m.Create? && slot == MutationSlot(m) then {newKey} else {})
  {
    if slot == MutationSlot(m) {
      ServedMatches(store, m, newKey);
    } else {
      ServedKeepsOtherSlots(store, m, newKey, slot);
      SameViewSameMatches(store, Served(store, m, newKey), slot);
    }
  }

  /** The same for each step of a run. */
  lemma RunAddsOnlyToEmptySlots(c: Setup, run: seq<State>, n: nat, slot: Slot)
    requires FleetRun(c, run) && n + 1 < |run|
    ensures Matching(run[n + 1].store, slot) == Matching(run[n].store, slot)
         || (Matching(run[n].store, slot) == {} && exists k :: Matching(run[n + 1].store, slot) == {k})
  {
    RunKeepsFleetInv(c, run, n);
    assert CanMove(c, run[n], run[n + 1]);
    var a :| FleetMove(c, run[n], a, run[n + 1]);
    StepAddsOnlyToEmptySlots(c, run[n], a, run[n + 1], slot);
  }

  /**
   * No duplicates over whole runs: in every interleaving, with lost responses, a slot that starts
   * with at most one record never gets a second one.
   */
  lemma {:induction false} NoDuplicateRecords(c: Setup, run: seq<State>, n: nat, slot: Slot)
    requires FleetRun(c, run) && n < |run|
    requires |Matching(run[0].store, slot)| <= 1
    ensures |Matching(run[n].store, slot)| <= 1
    ensures Matching(run[0].store, slot) != {} ==> Matching(run[n].store, slot) == Matching(run[0].store, slot)
  {
    if n > 0 {
      NoDuplicateRecords(c, run, n - 1, slot);
      RunAddsOnlyToEmptySlots(c, run, n - 1, slot);
    }
  }

  /** The write in flight at `q` is for none of the slots that another guarded process may use. */
  lemma WriteIsElsewhere(c: Setup, s: State, q: nat, p: nat, i: nat, zoneId: string)
    requires FleetInv(c, s) && q < |s.work| && s.work[q].Sent? && p != q
    requires p < |s.locks.stage| && s.locks.stage[p].Guarded? && MayResolve(c, p, i, zoneId)
    ensures MutationSlot(s.work[q].m) != WorkSlot(c, p, i, zoneId)
  {
    assert Informed(c, s.store, q, s.work[q]);
    var (j, z) := Target(s.work[q]);
    GuardsCoverDifferentResources(c, s, p, i, q, j);
    if z == zoneId && WorkSlot(c, p, i, zoneId) == WorkSlot(c, q, j, z) {
      SameSlotSameLock(c, p, i, q, j, z);
    }
  }

  /** A step of another process changes nothing in a slot that the guarded process `p` may use. */
  lemma OthersLeaveSlot(c: Setup, s: State, a: FleetStep, t: State, p: nat, i: nat, zoneId: string)
    requires FleetInv(c, s) && FleetMove(c, s, a, t) && (a.LockMove? || a.p != p)
    requires p < |s.locks.stage| && s.locks.stage[p].Guarded? && MayResolve(c, p, i, zoneId)
    ensures SlotView(t.store, WorkSlot(c, p, i, zoneId)) == SlotView(s.store, WorkSlot(c, p, i, zoneId))
  {
    if a.Serve? {
      OthersServeElsewhere(c, s, a, t, p, i, zoneId);
    } else {
      OnlyServingWrites(c, s, a, t);
    }
  }

  lemma OnlyServingWrites(c: Setup, s: State, a: FleetStep, t: State)
    requires FleetMove(c, s, a, t) && !a.Serve?
    ensures t.store == s.store
  {
  }

  lemma OthersServeElsewhere(c: Setup, s: State, a: FleetStep, t: State, p: nat, i: nat, zoneId: string)
    requires FleetInv(c, s) && FleetMove(c, s, a, t) && a.Serve? && a.p != p
    requires p < |s.locks.stage| && s.locks.stage[p].Guarded? && MayResolve(c, p, i, zoneId)
    ensures SlotView(t.store, WorkSlot(c, p, i, zoneId)) == SlotView(s.store, WorkSlot(c, p, i, zoneId))
  {
    assert Informed(c, s.store, a.p, s.work[a.p]);
    SentIsOnTarget(c, s, a.p, t.work[a.p], a, t.store);
    WriteIsElsewhere(c, s, a.p, p, i, zoneId);
    ServedKeepsOtherSlots(s.store, s.work[a.p].m, a.newKey, WorkSlot(c, p, i, zoneId));
  }

  /**
   * Rely and guarantee: while `p` holds its guard, no step of another process changes what the
   * store holds in any slot that `p` may use.
   */
  lemma GuardExcludesInterference(c: Setup, run: seq<State>, n: nat, a: FleetStep, p: nat, i: nat, zoneId: string)
    requires FleetRun(c, run) && n + 1 < |run| && FleetMove(c, run[n], a, run[n + 1])
    requires p < |run[n].locks.stage| && run[n].locks.stage[p].Guarded?
    requires a.LockMove? || a.p != p
    requires MayResolve(c, p, i, zoneId)
    ensures SlotView(run[n + 1].store, WorkSlot(c, p, i, zoneId)) == SlotView(run[n].store, WorkSlot(c, p, i, zoneId))
  {
    RunKeepsFleetInv(c, run, n);
    OthersLeaveSlot(c, run[n], a, run[n + 1], p, i, zoneId);
  }

  /** The step is not one of process `p` at work; it may be any step on the locks. */
  ghost predicate MoveByOthers(c: Setup, s: State, t: State, p: nat) {
    exists a :: FleetMove(c, s, a, t) && (a.LockMove? || a.p != p)
  }

  /** Process `p` holds its guard from state `m` to state `n` of the run, and does not work in between. */
  ghost predicate Idle(c: Setup, run: seq<State>, p: nat, m: nat, n: nat)
    requires m <= n < |run|
  {
    m == n || (
      && Idle(c, run, p, m, n - 1)
      && p < |run[n - 1].locks.stage| && run[n - 1].locks.stage[p].Guarded?
      && MoveByOthers(c, run[n - 1], run[n], p))
  }

  lemma OthersLeaveSlotOnce(c: Setup, s: State, t: State, p: nat, i: nat, zoneId: string)
    requires FleetInv(c, s) && MoveByOthers(c, s, t, p) && MayResolve(c, p, i, zoneId)
    requires p < |s.locks.stage| && s.locks.stage[p].Guarded?
    ensures SlotView(t.store, WorkSlot(c, p, i, zoneId)) == SlotView(s.store, WorkSlot(c, p, i, zoneId))
  {
    var a :| FleetMove(c, s, a, t) && (a.LockMove? || a.p != p);
    OthersLeaveSlot(c, s, a, t, p, i, zoneId);
  }

  /** Over any such stretch, nothing changes in any slot that `p` may use. */
  lemma {:induction false} GuardHoldsOverStretch(
      c: Setup, run: seq<State>, p: nat, m: nat, n: nat, i: nat, zoneId: string)
    requires FleetRun(c, run) && m <= n < |run| && Idle(c, run, p, m, n)
    requires MayResolve(c, p, i, zoneId)
    ensures SlotView(run[n].store, WorkSlot(c, p, i, zoneId)) == SlotView(run[m].store, WorkSlot(c, p, i, zoneId))
  {
    if m < n {
      GuardHoldsOverStretch(c, run, p, m, n - 1, i, zoneId);
      RunKeepsFleetInv(c, run, n - 1);
      OthersLeaveSlotOnce(c, run[n - 1], run[n], p, i, zoneId);
    }
  }

  // ----- What the steps allow -----

  /** The states follow one another by steps. */
  ghost predicate Path(c: Setup, run: seq<State>) {
    |run| <= 1 || (Path(c, run[..|run| - 1]) && CanMove(c, run[|run| - 2], run[|run| - 1]))
  }

  lemma {:induction false} PathAt(c: Setup, run: seq<State>, i: nat)
    requires Path(c, run) && i + 1 < |run|
    ensures CanMove(c, run[i], run[i + 1])
  {
    if i + 2 < |run| {
      PathAt(c, run[..|run| - 1], i);
    }
  }

  lemma PathIsRun(c: Setup, run: seq<State>)
    requires Path(c, run) && run != [] && FleetStart(c, run[0])
    ensures FleetRun(c, run)
  {
    forall i | 0 <= i < |run| - 1
      ensures CanMove(c, run[i], run[i + 1])
    {
      PathAt(c, run, i);
    }
  }

  lemma PathGrows(c: Setup, run: seq<State>, a: FleetStep, t: State)
    requires Path(c, run) && run != [] && FleetMove(c, run[|run| - 1], a, t)
    ensures Path(c, run + [t])
  {
    var more := run + [t];
    assert more[..|run|] == run;
    assert CanMove(c, more[|more| - 2], more[|more| - 1]);
  }

  /** Process `p` has taken the first `k` of its locks, and nothing else has happened since `s`. */
  ghost predicate Took(s: State, t: State, p: nat, k: nat) {
    && p < |s.locks.want| && k <= |s.locks.want[p]| && p < |s.locks.stage|
    && t.work == s.work && t.store == s.store && t.locks.want == s.locks.want
    && t.locks.stage == s.locks.stage[p := Acquiring(k)]
    && forall h :: h in t.locks.owner ==> h in FirstLocks(s.locks.want[p], k)
  }

  lemma TakesNext(c: Setup, s: State, t: State, p: nat, k: nat) returns (t': State)
    requires Took(s, t, p, k) && k < |s.locks.want[p]| && StrictlyIncreasing(s.locks.want[p])
    ensures Took(s, t', p, k + 1) && FleetMove(c, t, LockMove(Take(p)), t')
  {
    var h := s.locks.want[p][k];
    assert h !in FirstLocks(s.locks.want[p], k);
    t' := t.(locks := t.locks.(stage := t.locks.stage[p := Acquiring(k + 1)], owner := t.locks.owner[h := p]));
  }

  lemma TookNone(c: Setup, s: State, p: nat)
    requires FleetStart(c, s) && p < |c.configs|
    ensures Took(s, s, p, 0) && StrictlyIncreasing(s.locks.want[p])
  {
    assert s.locks.stage[p := Acquiring(0)] == s.locks.stage;
  }

  /** A process that has no locks yet can take the first `k` of its own while the others wait. */
  lemma {:induction false} TakesLocks(c: Setup, s: State, p: nat, k: nat) returns (run: seq<State>)
    requires Took(s, s, p, 0) && StrictlyIncreasing(s.locks.want[p]) && k <= |s.locks.want[p]|
    ensures Path(c, run) && run != [] && run[0] == s && Took(s, run[|run| - 1], p, k)
  {
    if k == 0 {
      run := [s];
    } else {
      run := TakesLocks(c, s, p, k - 1);
      var t := TakesNext(c, s, run[|run| - 1], p, k - 1);
      PathGrows(c, run, LockMove(Take(p)), t);
      run := run + [t];
    }
  }

  /** One step of the work of a process that holds its guard. */
  lemma WorksOn(c: Setup, t: State, a: FleetStep, w: Work, store: Store) returns (t': State)
    requires !a.LockMove? && a.p < |t.work| && a.p < |t.locks.stage| && t.locks.stage[a.p].Guarded?
    requires WorkMove(c, t, a, a.p, w, store)
    ensures t' == State(t.locks, t.work[a.p := w], store) && FleetMove(c, t, a, t')
  {
    t' := State(t.locks, t.work[a.p := w], store);
    assert t'.work[a.p] == w;
  }

  /** The process holds its guard and is at this point of its work. */
  predicate Busy(t: State, p: nat, w: Work, store: Store) {
    && p < |t.work| && t.work[p] == w && t.store == store
    && p < |t.locks.stage| && t.locks.stage[p].Guarded?
  }

  /** Up to the second lookup that finds nothing. */
  lemma ClearsSlot(c: Setup, t: State, p: nat, i: nat, zoneId: string) returns (a: State, b: State, d: State)
    requires Busy(t, p, Resting, t.store) && MayResolve(c, p, i, zoneId) && c.configs[p][i].createIfMissing
    requires Matching(t.store, WorkSlot(c, p, i, zoneId)) == {}
    ensures FleetMove(c, t, ResolveZone(p, i, zoneId), a) && FleetMove(c, a, Look(p), b) && FleetMove(c, b, Look(p), d)
    ensures Busy(d, p, Cleared(i, zoneId), t.store)
  {
    a := WorksOn(c, t, ResolveZone(p, i, zoneId), Resolved(i, zoneId), t.store);
    b := WorksOn(c, a, Look(p), SawNone(i, zoneId), t.store);
    d := WorksOn(c, b, Look(p), Cleared(i, zoneId), t.store);
  }

  /** From there to the answer. */
  lemma FillsSlot(c: Setup, t: State, p: nat, i: nat, zoneId: string, address: Address, newKey: RecordKey)
    returns (a: State, b: State, d: State)
    requires Busy(t, p, Cleared(i, zoneId), t.store) && MayResolve(c, p, i, zoneId)
    requires newKey !in t.store && newKey.zoneId == zoneId
    ensures FleetMove(c, t, SendCreate(p, address), a) && FleetMove(c, a, Serve(p, newKey), b)
    ensures FleetMove(c, b, Answer(p), d)
    ensures Busy(d, p, Resting, Served(t.store, Create(zoneId, PayloadFor(c.configs[p][i], address)), newKey))
  {
    var m := Create(zoneId, PayloadFor(c.configs[p][i], address));
    a := WorksOn(c, t, SendCreate(p, address), Sent(i, m, false), t.store);
    b := WorksOn(c, a, Serve(p, newKey), Sent(i, m, true), Served(t.store, m, newKey));
    d := WorksOn(c, b, Answer(p), Resting, Served(t.store, m, newKey));
  }

  lemma FilledIsDelivered(store: Store, zoneId: string, r: RecordConfig, address: Address, newKey: RecordKey)
    requires Matching(store, ConfigSlot(zoneId, r)) == {} && newKey !in store && newKey.zoneId == zoneId
    ensures Delivered(Served(store, Create(zoneId, PayloadFor(r, address)), newKey), zoneId, r, address)
  {
    var m := Create(zoneId, PayloadFor(r, address));
    ServedMatches(store, m, newKey);
    assert Matching(Served(store, m, newKey), ConfigSlot(zoneId, r)) == {newKey};
    ConvergedExactly(Served(store, m, newKey), zoneId, r, address);
  }

  /**
   * The steps do allow work: from the start, any process can take all its locks and create any record
   * of its own that is missing and that it may create, in any zone of the record's name.
   */
  lemma MissingRecordCanBeCreated(
      c: Setup, s: State, p: nat, i: nat, zoneId: string, address: Address, newKey: RecordKey)
    returns (run: seq<State>)
    requires FleetStart(c, s) && MayResolve(c, p, i, zoneId) && c.configs[p][i].createIfMissing
    requires Matching(s.store, WorkSlot(c, p, i, zoneId)) == {} && newKey !in s.store && newKey.zoneId == zoneId
    ensures FleetRun(c, run) && run[0] == s
    ensures Delivered(run[|run| - 1].store, zoneId, c.configs[p][i], address)
    ensures Busy(run[|run| - 1], p, Resting, run[|run| - 1].store)
  {
    run := TakesGuard(c, s, p, i);
    run := ClearsOn(c, run, p, i, zoneId);
    run := FillsOn(c, run, p, i, zoneId, address, newKey);
    FilledIsDelivered(s.store, zoneId, c.configs[p][i], address, newKey);
    PathIsRun(c, run);
  }

  lemma TakesGuard(c: Setup, s: State, p: nat, i: nat) returns (run: seq<State>)
    requires FleetStart(c, s) && p < |c.configs| && i < |c.configs[p]|
    ensures Path(c, run) && run != [] && run[0] == s && Busy(run[|run| - 1], p, Resting, s.store)
  {
    assert ResourceLockHash(ResourceOf(c.configs[p][i])) in LockOrder(c.configs[p]);
    TookNone(c, s, p);
    run := TakesLocks(c, s, p, |s.locks.want[p]|);
    var t := Completes(c, s, run[|run| - 1], p);
    PathGrows(c, run, LockMove(Complete(p)), t);
    run := run + [t];
  }

  lemma ClearsOn(c: Setup, run: seq<State>, p: nat, i: nat, zoneId: string) returns (run': seq<State>)
    requires Path(c, run) && run != [] && Busy(run[|run| - 1], p, Resting, run[|run| - 1].store)
    requires MayResolve(c, p, i, zoneId) && c.configs[p][i].createIfMissing
    requires Matching(run[|run| - 1].store, WorkSlot(c, p, i, zoneId)) == {}
    ensures Path(c, run') && run' != [] && run'[0] == run[0]
    ensures Busy(run'[|run'| - 1], p, Cleared(i, zoneId), run[|run| - 1].store)
  {
    var x, y, z := ClearsSlot(c, run[|run| - 1], p, i, zoneId);
    run' := GrowsThrice(c, run, ResolveZone(p, i, zoneId), x, Look(p), y, Look(p), z);
  }

  lemma FillsOn(c: Setup, run: seq<State>, p: nat, i: nat, zoneId: string, address: Address, newKey: RecordKey)
    returns (run': seq<State>)
    requires Path(c, run) && run != [] && Busy(run[|run| - 1], p, Cleared(i, zoneId), run[|run| - 1].store)
    requires MayResolve(c, p, i, zoneId) && newKey !in run[|run| - 1].store && newKey.zoneId == zoneId
    ensures Path(c, run') && run' != [] && run'[0] == run[0]
    ensures var m := Create(zoneId, PayloadFor(c.configs[p][i], address));
            Busy(run'[|run'| - 1], p, Resting, Served(run[|run| - 1].store, m, newKey))
  {
    var x, y, z := FillsSlot(c, run[|run| - 1], p, i, zoneId, address, newKey);
    run' := GrowsThrice(c, run, SendCreate(p, address), x, Serve(p, newKey), y, Answer(p), z);
  }

  lemma GrowsThrice(
      c: Setup, run: seq<State>, a: FleetStep, x: State, b: FleetStep, y: State, d: FleetStep, z: State)
    returns (run': seq<State>)
    requires Path(c, run) && run != []
    requires FleetMove(c, run[|run| - 1], a, x) && FleetMove(c, x, b, y) && FleetMove(c, y, d, z)
    ensures Path(c, run') && run' != [] && run'[0] == run[0] && run'[|run'| - 1] == z
  {
    PathGrows(c, run, a, x);
    PathGrows(c, run + [x], b, y);
    PathGrows(c, run + [x] + [y], d, z);
    run' := run + [x] + [y] + [z];
  }

  lemma Completes(c: Setup, s: State, t: State, p: nat) returns (t': State)
    requires p < |s.locks.want| && s.locks.want[p] != [] && Took(s, t, p, |s.locks.want[p]|)
    requires p < |s.work| && s.work[p] == Resting
    ensures FleetMove(c, t, LockMove(Complete(p)), t') && Busy(t', p, Resting, s.store)
  {
    t' := t.(locks := t.locks.(stage := t.locks.stage[p := Guarded]));
  }
}
