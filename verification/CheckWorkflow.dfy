/** The `check` workflow and its proofs of edit permission per zone (`src/updater.rs`). */
module CheckWorkflow {
  import opened Text
  import opened Arithmetic
  import opened Configuration
  import opened DnsStore
  import opened Reports
  import opened SyncCycle
  import opened Rotation

  // ----- Zone proofs -----

  function ExpectedZones(records: seq<RecordConfig>): set<ConfiguredZone> {
    set i | 0 <= i < |records| :: ZoneOf(records[i])
  }

  /** The zone is resolved to an ID for which a write was acknowledged. */
  predicate Verified(resolved: map<ConfiguredZone, string>, proven: set<string>, z: ConfiguredZone) {
    z in resolved && resolved[z] in proven
  }

  lemma SubsetOfSameSize<T>(a: set<T>, b: set<T>)
    requires a <= b
    ensures |a| <= |b|
    ensures |a| == |b| ==> a == b
  {
    assert b == a + (b - a);
    assert |b| == |a| + |b - a|;
  }

  class ZoneProofs {
    const expected: set<ConfiguredZone>
    var resolved: map<ConfiguredZone, string>
    var proven: set<string>

    ghost predicate Valid()
      reads this
    {
      resolved.Keys <= expected
    }

    constructor (records: seq<RecordConfig>)
      ensures Valid() && expected == ExpectedZones(records) && resolved == map[] && proven == {}
    {
      expected := ExpectedZones(records);
      resolved, proven := map[], {};
    }

    /** A later resolution of the same configured zone replaces the earlier one. */
    method MarkResolved(r: RecordConfig, zoneId: string)
      requires Valid() && ZoneOf(r) in expected
      modifies this`resolved
      ensures Valid() && resolved == old(resolved)[ZoneOf(r) := zoneId]
    {
      resolved := resolved[ZoneOf(r) := zoneId];
    }

    method MarkProven(zoneId: string)
      modifies this`proven
      ensures proven == old(proven) + {zoneId}
    {
      proven := proven + {zoneId};
    }

    /** Distinct zone IDs that are resolved and proven. */
    function VerifiedCount(): nat
      reads this
    {
      |set z | z in resolved && resolved[z] in proven :: resolved[z]|
    }

    /** The comparison of sizes is enough: every expected zone is resolved to a proven ID. */
    method IsComplete() returns (b: bool)
      requires Valid()
      ensures b <==> forall z :: z in expected ==> Verified(resolved, proven, z)
    {
      SubsetOfSameSize(resolved.Keys, expected);
      b := |resolved| == |expected| && forall z :: z in resolved ==> resolved[z] in proven;
      assert |resolved| == |resolved.Keys|;
      if forall z :: z in expected ==> Verified(resolved, proven, z) {
        assert expected <= resolved.Keys;
        assert expected == resolved.Keys;
      }
    }

    function TargetKey(z: ConfiguredZone): string
      reads this
    {
      if z in resolved then "resolved:" + resolved[z]
      else "unresolved:" + z.name + ":" + (if z.explicitId.Some? then z.explicitId.value else "")
    }

    function TargetText(z: ConfiguredZone): string
      reads this
    {
      if z in resolved then z.name + " (zone ID " + resolved[z] + ")"
      else if z.explicitId.Some? then z.name + " (zone ID " + z.explicitId.value + ")"
      else z.name
    }

    /** Resolved zones share a target exactly if they have one ID, and never share it with an unresolved one. */
    lemma TargetsApart(y: ConfiguredZone, z: ConfiguredZone)
      requires y in resolved
      ensures TargetKey(y) == TargetKey(z) <==> z in resolved && resolved[y] == resolved[z]
    {
      if z in resolved {
        assert TargetKey(y)[9..] == resolved[y] && TargetKey(z)[9..] == resolved[z];
      } else {
        assert TargetKey(y)[0] == 'r' && TargetKey(z)[0] == 'u';
      }
    }

    /** One target per key; the first zone met with a key supplies the text. */
    method UnverifiedTargets() returns (targets: map<string, string>)
      ensures targets.Keys == set z | z in expected && !Verified(resolved, proven, z) :: TargetKey(z)
      ensures forall k :: k in targets ==>
                exists z :: z in expected && !Verified(resolved, proven, z)
                            && TargetKey(z) == k && targets[k] == TargetText(z)
      ensures targets == map[] <==> forall z :: z in expected ==> Verified(resolved, proven, z)
    {
      targets := map[];
      var left := expected;
      while left != {}
        invariant left <= expected
        invariant targets.Keys == set z | z in expected - left && !Verified(resolved, proven, z) :: TargetKey(z)
        invariant forall k :: k in targets ==>
                    exists z :: z in expected && !Verified(resolved, proven, z)
                                && TargetKey(z) == k && targets[k] == TargetText(z)
        decreases left
      {
        var z :| z in left;
        left := left - {z};
        if !Verified(resolved, proven, z) && TargetKey(z) !in targets {
          targets := targets[TargetKey(z) := TargetText(z)];
        }
      }
      assert expected - left == expected;
      assert targets == map[] <==> targets.Keys == {};
      if z :| z in expected && !Verified(resolved, proven, z) {
        assert TargetKey(z) in targets.Keys;
      }
    }
  }

  // ----- The record loop -----

  const MUTATION_START_MARGIN := SECOND
  const CHECK_TIMEOUT := 300 * SECOND

  datatype Options = Options(allowCreate: bool, allowProbe: bool, deadline: nat)

  datatype CheckReport = CheckReport(
    records: nat,
    authenticated: bool,
    existing: nat,
    creatable: nat,
    created: nat,
    verifiedZones: nat,
    editVerified: bool,
    failures: seq<Failure>)
  {
    predicate IsSuccess() {
      authenticated && editVerified && failures == []
    }
  }

  /** What one record adds to the report, and whether the check stops after it. */
  datatype CheckVisit = CheckVisit(count: Counted, failures: seq<Failure>, stop: bool)

  /** At most one failure, and the check stops exactly if it calls for that. */
  predicate StopsRight(v: CheckVisit) {
    |v.failures| <= 1 && (v.stop <==> v.failures != [] && Stopping(v.failures[0]))
  }

  /** Under which heading a record is counted. */
  datatype Counted = AsNothing | AsExisting | AsCreatable | AsCreated

  predicate CanFinish(now: nat, timeout: nat, deadline: nat) {
    now <= deadline && deadline - now >= timeout + MUTATION_START_MARGIN
  }

  /** A write that the options allow, started early enough to be answered before the deadline. */
  predicate Prudent(e: Issued, timeout: nat, o: Options) {
    && e.start + timeout + SECOND <= o.deadline
    && e.start <= e.end <= e.start + timeout
    && (e.m.Create? ==> o.allowCreate)
    && (e.m.Probe? ==> o.allowProbe)
    && !e.m.Update?
  }

  predicate PrudentUpTo(writes: seq<Issued>, timeout: nat, o: Options, k: nat)
    requires k <= |writes|
  {
    k == 0 || (PrudentUpTo(writes, timeout, o, k - 1) && Prudent(writes[k - 1], timeout, o))
  }

  predicate AllPrudent(writes: seq<Issued>, timeout: nat, o: Options) {
    PrudentUpTo(writes, timeout, o, |writes|)
  }

  lemma {:induction false} PrudentAt(writes: seq<Issued>, timeout: nat, o: Options, k: nat, e: nat)
    requires e < k <= |writes| && PrudentUpTo(writes, timeout, o, k)
    ensures Prudent(writes[e], timeout, o)
  {
    if e < k - 1 {
      PrudentAt(writes, timeout, o, k - 1, e);
    }
  }

  lemma {:induction false} PrudentKept(writes: seq<Issued>, e: Issued, timeout: nat, o: Options, k: nat)
    requires k <= |writes| && PrudentUpTo(writes, timeout, o, k)
    ensures PrudentUpTo(writes + [e], timeout, o, k)
  {
    if k > 0 {
      PrudentKept(writes, e, timeout, o, k - 1);
    }
  }

  /** The zones in which some write was acknowledged. */
  function AckedZones(writes: seq<Issued>): set<string> {
    set i | 0 <= i < |writes| && writes[i].acked :: writes[i].slot.zoneId
  }

  function CreationCount(writes: seq<Issued>): nat {
    AckedCount(writes, true)
  }

  lemma AckedZonesAppend(writes: seq<Issued>, e: Issued)
    ensures AckedZones(writes + [e]) == AckedZones(writes) + if e.acked then {e.slot.zoneId} else {}
  {
    var all := writes + [e];
    forall x | x in AckedZones(all)
      ensures x in AckedZones(writes) + if e.acked then {e.slot.zoneId} else {}
    {
      var i :| 0 <= i < |all| && all[i].acked && all[i].slot.zoneId == x;
      assert i < |writes| ==> all[i] == writes[i];
    }
    assert forall i :: 0 <= i < |writes| ==> all[i] == writes[i];
    assert all[|writes|] == e;
  }

  /** What one more write adds to these accounts. */
  lemma OneMoreWrite(writes: seq<Issued>, e: Issued, timeout: nat, o: Options)
    requires AllPrudent(writes, timeout, o) && Prudent(e, timeout, o)
    ensures CreationCount(writes + [e]) == CreationCount(writes) + if e.m.Create? && e.acked then 1 else 0
    ensures AckedZones(writes + [e]) == AckedZones(writes) + if e.acked then {e.slot.zoneId} else {}
    ensures AllPrudent(writes + [e], timeout, o)
  {
    AckedNext(writes, e, true);
    AckedZonesAppend(writes, e);
    PrudentKept(writes, e, timeout, o, |writes|);
  }

  /**
   * At most one more write, to this slot; `sure` says that what it touched is known to be there. If
   * it is a creation, its payload is the one on offer.
   */
  predicate AtMostOneMore(
    writes: seq<Issued>, writes': seq<Issued>, s: Slot, sure: bool, offer: Option<RecordPayload>)
  {
    writes' == writes || (
      && |writes'| == |writes| + 1
      && var e := writes'[|writes|];
         && writes' == writes + [e] && e.slot == s && (sure ==> e.inSlot)
         && (e.m.Create? ==> offer == Some(e.m.payload)) && !e.m.Update?)
  }

  /** Exactly this write was sent on top of the others. */
  predicate Sent(writes: seq<Issued>, writes': seq<Issued>, m: Mutation, sure: bool, acked: bool) {
    && |writes'| == |writes| + 1
    && var e := writes'[|writes|];
       writes' == writes + [e] && e.m == m && e.slot == MutationSlot(m) && e.acked == acked && (sure ==> e.inSlot)
  }

  /** The last write is an acknowledged creation of this record, with this address, its TTL and its proxy flag. */
  predicate Creates(writes: seq<Issued>, zoneId: string, r: RecordConfig, address: Address) {
    && writes != []
    && var e := writes[|writes| - 1];
       && e.acked && e.m.Create? && e.m.zoneId == zoneId
       && e.m.payload.rtype == (if r.rtype.A? then "A" else "AAAA") && e.m.payload.name == r.name
       && e.m.payload.content == address && e.m.payload.ttl == r.ttl && e.m.payload.proxied == r.proxied
  }

  /** What may be created for a record, if an address for it was found. */
  function Offer(r: RecordConfig, a: DiscoveredAddresses): Option<RecordPayload> {
    var address := ForRecord(a, r);
    if address.Some? then Some(PayloadFor(r, address.value)) else None
  }

  /** The write is to this record's slot, and a creation carries all that the record is owed. */
  predicate IsFor(e: Issued, r: RecordConfig, id: string, a: DiscoveredAddresses) {
    e.slot == ConfigSlot(id, r) && !e.m.Update? && (e.m.Create? ==> Fulfills(e, r, id, a))
  }

  /** The write is for one of the first `n` records, in the zone to which its own was here resolved. */
  predicate WriteFrom(
    records: seq<RecordConfig>, n: nat, resolution: (ConfiguredZone, string), a: DiscoveredAddresses, e: Issued)
    requires n <= |records|
  {
    n > 0 && (
      || (resolution.0 == ZoneOf(records[n - 1]) && IsFor(e, records[n - 1], resolution.1, a))
      || WriteFrom(records, n - 1, resolution, a, e))
  }

  /** The same, for one of the first `k` resolutions. */
  predicate Configured(
    records: seq<RecordConfig>, log: seq<(ConfiguredZone, string)>, k: nat, a: DiscoveredAddresses, e: Issued)
    requires k <= |log|
  {
    k > 0 && (WriteFrom(records, |records|, log[k - 1], a, e) || Configured(records, log, k - 1, a, e))
  }

  lemma {:induction false} WriteFromMeans(
      records: seq<RecordConfig>, n: nat, resolution: (ConfiguredZone, string), a: DiscoveredAddresses, e: Issued)
    requires n <= |records|
    ensures WriteFrom(records, n, resolution, a, e) <==>
            exists i :: 0 <= i < n && resolution.0 == ZoneOf(records[i]) && IsFor(e, records[i], resolution.1, a)
  {
    if n > 0 {
      WriteFromMeans(records, n - 1, resolution, a, e);
    }
  }

  lemma {:induction false} ConfiguredMeans(
      records: seq<RecordConfig>, log: seq<(ConfiguredZone, string)>, k: nat, a: DiscoveredAddresses, e: Issued)
    requires k <= |log|
    ensures Configured(records, log, k, a, e) <==> exists j :: 0 <= j < k && WriteFrom(records, |records|, log[j], a, e)
  {
    if k > 0 {
      ConfiguredMeans(records, log, k - 1, a, e);
    }
  }

  /** Every write so far was for a configured record, and under the guard touched nothing else. */
  ghost predicate PlacedUpTo(
    w: World, cover: set<Resource>, records: seq<RecordConfig>, a: DiscoveredAddresses,
    log: seq<(ConfiguredZone, string)>, writes: seq<Issued>, k: nat)
    requires k <= |writes|
  {
    k == 0 || (
      && PlacedUpTo(w, cover, records, a, log, writes, k - 1)
      && Configured(records, log, |log|, a, writes[k - 1])
      && (Covered(w.zoneName, cover, writes[k - 1].slot) ==> writes[k - 1].inSlot))
  }

  ghost predicate Placed(
    w: World, cover: set<Resource>, records: seq<RecordConfig>, a: DiscoveredAddresses,
    log: seq<(ConfiguredZone, string)>, writes: seq<Issued>)
  {
    PlacedUpTo(w, cover, records, a, log, writes, |writes|)
  }

  /** Read off for one write: it is for a configured record, in a zone that the record's own resolved to. */
  lemma PlacedAt(
      w: World, cover: set<Resource>, records: seq<RecordConfig>, a: DiscoveredAddresses,
      log: seq<(ConfiguredZone, string)>, writes: seq<Issued>, e: nat)
    requires Placed(w, cover, records, a, log, writes) && e < |writes|
    ensures exists i :: 0 <= i < |records| && (ZoneOf(records[i]), writes[e].slot.zoneId) in log
                        && IsFor(writes[e], records[i], writes[e].slot.zoneId, a)
    ensures Covered(w.zoneName, cover, writes[e].slot) ==> writes[e].inSlot
  {
    var x := writes[e];
    PlacedIndex(w, cover, records, a, log, writes, |writes|, e);
    ConfiguredMeans(records, log, |log|, a, x);
    var j :| 0 <= j < |log| && WriteFrom(records, |records|, log[j], a, x);
    WriteFromMeans(records, |records|, log[j], a, x);
    var i :| 0 <= i < |records| && log[j].0 == ZoneOf(records[i]) && IsFor(x, records[i], log[j].1, a);
    assert log[j] == (ZoneOf(records[i]), x.slot.zoneId);
  }

  lemma {:induction false} PlacedIndex(
      w: World, cover: set<Resource>, records: seq<RecordConfig>, a: DiscoveredAddresses,
      log: seq<(ConfiguredZone, string)>, writes: seq<Issued>, k: nat, e: nat)
    requires e < k <= |writes| && PlacedUpTo(w, cover, records, a, log, writes, k)
    ensures Configured(records, log, |log|, a, writes[e])
    ensures Covered(w.zoneName, cover, writes[e].slot) ==> writes[e].inSlot
  {
    if e < k - 1 {
      PlacedIndex(w, cover, records, a, log, writes, k - 1, e);
    }
  }

  lemma ConfiguredLater(
      records: seq<RecordConfig>, log: seq<(ConfiguredZone, string)>, log': seq<(ConfiguredZone, string)>,
      a: DiscoveredAddresses, e: Issued)
    requires log <= log' && Configured(records, log, |log|, a, e)
    ensures Configured(records, log', |log'|, a, e)
  {
    ConfiguredMeans(records, log, |log|, a, e);
    var j :| 0 <= j < |log| && WriteFrom(records, |records|, log[j], a, e);
    assert log'[j] == log[j];
    ConfiguredMeans(records, log', |log'|, a, e);
  }

  lemma {:induction false} PlacedLater(
      w: World, cover: set<Resource>, records: seq<RecordConfig>, a: DiscoveredAddresses,
      log: seq<(ConfiguredZone, string)>, log': seq<(ConfiguredZone, string)>, writes: seq<Issued>,
      writes': seq<Issued>, k: nat)
    requires k <= |writes| <= |writes'| && log <= log' && PlacedUpTo(w, cover, records, a, log, writes, k)
    requires forall i :: 0 <= i < k ==> writes[i] == writes'[i]
    ensures PlacedUpTo(w, cover, records, a, log', writes', k)
  {
    if k > 0 {
      PlacedLater(w, cover, records, a, log, log', writes, writes', k - 1);
      ConfiguredLater(records, log, log', a, writes[k - 1]);
    }
  }

  lemma StaysPlaced(
      w: World, cover: set<Resource>, records: seq<RecordConfig>, a: DiscoveredAddresses,
      log: seq<(ConfiguredZone, string)>, log': seq<(ConfiguredZone, string)>, writes: seq<Issued>,
      writes': seq<Issued>, i: nat, zoneId: string)
    requires Placed(w, cover, records, a, log, writes) && log <= log' && i < |records| && OfTheirFamilies(a)
    requires writes' == writes || (
               && (ZoneOf(records[i]), zoneId) in log'
               && var s := ConfigSlot(zoneId, records[i]);
                  AtMostOneMore(writes, writes', s, Covered(w.zoneName, cover, s), Offer(records[i], a)))
    ensures Placed(w, cover, records, a, log', writes')
  {
    PlacedLater(w, cover, records, a, log, log', writes, writes', |writes|);
    if writes' != writes {
      var e := writes'[|writes|];
      assert IsFor(e, records[i], zoneId, a);
      var j :| 0 <= j < |log'| && log'[j] == (ZoneOf(records[i]), zoneId);
      WriteFromMeans(records, |records|, log'[j], a, e);
      ConfiguredMeans(records, log', |log'|, a, e);
    }
  }

  /** The last ID to which each zone was resolved. */
  function LastResolved(log: seq<(ConfiguredZone, string)>): map<ConfiguredZone, string> {
    if log == [] then map[] else LastResolved(log[..|log| - 1])[log[|log| - 1].0 := log[|log| - 1].1]
  }

  /** The proofs mirror what the run did: its last resolutions and its acknowledged writes. */
  ghost predicate Faithful(p: ZoneProofs, log: seq<(ConfiguredZone, string)>, writes: seq<Issued>)
    reads p
  {
    p.Valid() && p.resolved == LastResolved(log) && p.proven == AckedZones(writes)
  }

  // ----- When a check has no reason to fail -----

  /** No request has failed since the count was `troubles`, and there is time for one more write. */
  ghost predicate Calm(w: World, troubles: nat, o: Options)
    reads w
  {
    w.troubles == troubles && w.now + w.requestTimeout + SECOND <= o.deadline
  }

  /** The write is for a slot under the guard, and what it patches is there. */
  ghost predicate Aimed(w: World, cover: set<Resource>, m: Mutation, store: Store) {
    Covered(w.zoneName, cover, MutationSlot(m)) && (m.Create? || m.key in Matching(store, MutationSlot(m)))
  }

  /** The slot is under the guard and holds at most one record. */
  ghost predicate Unambiguous(w: World, cover: set<Resource>, s: Slot, store: Store) {
    Covered(w.zoneName, cover, s) && |Matching(store, s)| <= 1
  }

  lemma AimedSend(
      w: World, cover: set<Resource>, m: Mutation, before: Store, mid: Store, newKey: RecordKey, served: bool,
      after: Store)
    requires Aimed(w, cover, m, before)
    requires GuardedPart(w.zoneName, cover, mid) == GuardedPart(w.zoneName, cover, before)
    requires served && m.Create? ==> newKey !in mid && newKey.zoneId == m.zoneId
    requires GuardedPart(w.zoneName, cover, after)
          == GuardedPart(w.zoneName, cover, if served then Served(mid, m, newKey) else mid)
    ensures OnlyAt(w, cover, MutationSlot(m), before, after)
    ensures served ==> OnTarget(mid, m, newKey)
    ensures !m.Create? ==> m.key in mid
  {
    var s := MutationSlot(m);
    GuardedPartFixesSlot(w.zoneName, cover, before, mid, s);
    AfterSend(w, cover, s, m, before, mid, newKey, served, after);
  }

  lemma ReadingIsHarmless(w: World, cover: set<Resource>, s: Slot, before: Store, after: Store)
    requires GuardedPart(w.zoneName, cover, before) == GuardedPart(w.zoneName, cover, after)
    ensures OnlyAt(w, cover, s, before, after)
    ensures Unambiguous(w, cover, s, before) ==> Unambiguous(w, cover, s, after) && FlatLookup(after, s).Ok?
  {
    forall t | Covered(w.zoneName, cover, t)
      ensures SlotView(after, t) == SlotView(before, t)
    {
      GuardedPartFixesSlot(w.zoneName, cover, before, after, t);
    }
    if Covered(w.zoneName, cover, s) {
      GuardedPartFixesSlot(w.zoneName, cover, before, after, s);
    }
  }

  lemma OnlyAtTwice(w: World, cover: set<Resource>, s: Slot, a: Store, b: Store, c: Store)
    requires OnlyAt(w, cover, s, a, b) && OnlyAt(w, cover, s, b, c)
    ensures OnlyAt(w, cover, s, a, c)
  {
  }

  /** What a lookup found is where its probe goes. */
  lemma FoundIsAimed(w: World, cover: set<Resource>, s: Slot, store: Store)
    requires FlatLookup(store, s).Ok? && FlatLookup(store, s).value.Some?
    ensures var (key, seen) := FlatLookup(store, s).value.value;
            key.zoneId == s.zoneId && RecordSlot(key, seen) == s
            && (Covered(w.zoneName, cover, s) ==>
                  Aimed(w, cover, Probe(key, seen), store) && forall o :: Mild(w, cover, Probe(key, seen), o, store))
  {
    var (key, seen) := FlatLookup(store, s).value.value;
    assert key in Matching(store, s);
  }

  // ----- What a check leaves alone -----

  /**
   * Under the guard, every record that was there is there unchanged; and unless creations are
   * allowed, there is no new one either.
   */
  ghost predicate Unharmed(w: World, cover: set<Resource>, o: Options, before: Store, after: Store) {
    var was, now := GuardedPart(w.zoneName, cover, before), GuardedPart(w.zoneName, cover, after);
    && (forall k :: k in was ==> k in now && now[k] == was[k])
    && (!o.allowCreate ==> now == was)
  }

  lemma UnharmedTwice(w: World, cover: set<Resource>, o: Options, a: Store, b: Store, c: Store)
    requires Unharmed(w, cover, o, a, b) && Unharmed(w, cover, o, b, c)
    ensures Unharmed(w, cover, o, a, c)
  {
  }

  /** A creation, or a probe of a record under the guard that sends back what the record holds. */
  ghost predicate Mild(w: World, cover: set<Resource>, m: Mutation, o: Options, store: Store) {
    match m
    case Create(_, _) => o.allowCreate
    case Update(_, _) => false
    case Probe(key, seen) => key in store && store[key] == seen && Covered(w.zoneName, cover, RecordSlot(key, seen))
  }

  /** A mild write harms nothing, whether or not it takes effect. */
  lemma MildIsHarmless(
      w: World, cover: set<Resource>, m: Mutation, o: Options, before: Store, mid: Store, newKey: RecordKey,
      served: bool, after: Store)
    requires Mild(w, cover, m, o, before)
    requires GuardedPart(w.zoneName, cover, mid) == GuardedPart(w.zoneName, cover, before)
    requires served && m.Create? ==> newKey !in mid
    requires GuardedPart(w.zoneName, cover, after)
          == GuardedPart(w.zoneName, cover, if served then Served(mid, m, newKey) else mid)
    ensures Unharmed(w, cover, o, before, after)
  {
    if m.Probe? {
      assert m.key in GuardedPart(w.zoneName, cover, before);
      assert mid[m.key] == before[m.key];
      assert Served(mid, m, newKey) == mid;
    }
  }

  /** The slot holds one record, and that is the one this payload makes. */
  ghost predicate HoldsOnly(store: Store, s: Slot, payload: RecordPayload) {
    exists k :: Matching(store, s) == {k} && store[k] == PayloadRecord(payload)
  }

  /** An effective creation in an empty slot under the guard leaves exactly the new record there. */
  lemma CreationFills(
      w: World, cover: set<Resource>, m: Mutation, before: Store, mid: Store, newKey: RecordKey, after: Store)
    requires m.Create? && Covered(w.zoneName, cover, MutationSlot(m)) && Matching(before, MutationSlot(m)) == {}
    requires GuardedPart(w.zoneName, cover, mid) == GuardedPart(w.zoneName, cover, before)
    requires newKey !in mid && newKey.zoneId == m.zoneId
    requires GuardedPart(w.zoneName, cover, after) == GuardedPart(w.zoneName, cover, Served(mid, m, newKey))
    ensures HoldsOnly(after, MutationSlot(m), m.payload)
  {
    var s := MutationSlot(m);
    GuardedPartFixesSlot(w.zoneName, cover, before, mid, s);
    ServedMatches(mid, m, newKey);
    GuardedPartFixesSlot(w.zoneName, cover, Served(mid, m, newKey), after, s);
    assert Matching(after, s) == {newKey};
  }

  lemma HoldsWhatIsOwed(store: Store, zoneId: string, r: RecordConfig, address: Address)
    requires HoldsOnly(store, ConfigSlot(zoneId, r), PayloadFor(r, address))
    ensures Delivered(store, zoneId, r, address)
  {
    ConvergedExactly(store, zoneId, r, address);
  }

  /** The records are all under the guard. */
  predicate Guarded(cover: set<Resource>, records: seq<RecordConfig>) {
    forall i {:trigger Tidy(records[i])} :: 0 <= i < |records| ==> Tidy(records[i]) && Named(records[i]) in cover
  }

  // ----- One record -----

  /** Sends a write and, when it is acknowledged, marks its zone as proven. */
  method SendAndProve(
      w: World, control: CycleControl, cover: set<Resource>, p: ZoneProofs, zoneId: string, m: Mutation, o: Options,
      ghost base: seq<Issued>, ghost writes: seq<Issued>, ghost log: seq<(ConfiguredZone, string)>)
    returns (r: Result<(), ApiError>, ghost writes': seq<Issued>)
    requires !control.mutationInFlight
    requires w.journal == base + writes && AllPrudent(writes, w.requestTimeout, o) && Faithful(p, log, writes)
    requires MutationSlot(m).zoneId == zoneId && CanFinish(w.now, w.requestTimeout, o.deadline)
    requires (m.Create? && o.allowCreate) || (m.Probe? && o.allowProbe)
    modifies w`store, w`now, w`troubles, w`journal, p`proven, control`mutationInFlight
    ensures !control.mutationInFlight
    ensures w.journal == base + writes' && AllPrudent(writes', w.requestTimeout, o) && Faithful(p, log, writes')
    ensures old(w.now) <= w.now <= o.deadline
    ensures r.Ok? ==> zoneId in p.proven
    ensures Sent(writes, writes', m, Aimed(w, cover, m, old(w.store)), r.Ok?)
    ensures CreationCount(writes') == CreationCount(writes) + if m.Create? && r.Ok? then 1 else 0
    ensures old(w.troubles) <= w.troubles && old(p.proven) <= p.proven
    ensures Mild(w, cover, m, o, old(w.store)) ==> Unharmed(w, cover, o, old(w.store), w.store)
    ensures (r.Ok? && m.Create? && Covered(w.zoneName, cover, MutationSlot(m))
             && Matching(old(w.store), MutationSlot(m)) == {}) ==> HoldsOnly(w.store, MutationSlot(m), m.payload)
    ensures Aimed(w, cover, m, old(w.store)) ==>
              OnlyAt(w, cover, MutationSlot(m), old(w.store), w.store) && (w.troubles == old(w.troubles) ==> r.Ok?)
  {
    var start := w.now;
    ghost var mid, newKey, served;
    control.BeginMutation();
    r, mid, newKey, served := w.Send(cover, m, control);
    control.EndMutation();
    if Aimed(w, cover, m, old(w.store)) {
      AimedSend(w, cover, m, old(w.store), mid, newKey, served, w.store);
    }
    if Mild(w, cover, m, o, old(w.store)) {
      MildIsHarmless(w, cover, m, o, old(w.store), mid, newKey, served, w.store);
    }
    if r.Ok? && m.Create? && Covered(w.zoneName, cover, MutationSlot(m))
       && Matching(old(w.store), MutationSlot(m)) == {} {
      CreationFills(w, cover, m, old(w.store), mid, newKey, w.store);
    }
    ghost var e := Issued(m, MutationSlot(m), start, w.now, r.Ok?, served ==> OnTarget(mid, m, newKey));
    writes' := writes + [e];
    assert base + writes' == (base + writes) + [e];
    OneMoreWrite(writes, e, w.requestTimeout, o);
    if r.Ok? {
      p.MarkProven(zoneId);
    }
  }

  method HandleExisting(
      w: World, control: CycleControl, cover: set<Resource>, p: ZoneProofs, zoneId: string, key: RecordKey,
      seen: DnsRecord, o: Options,
      ghost base: seq<Issued>, ghost writes: seq<Issued>, ghost log: seq<(ConfiguredZone, string)>)
    returns (v: CheckVisit, ghost writes': seq<Issued>)
    requires !control.mutationInFlight
    requires w.journal == base + writes && AllPrudent(writes, w.requestTimeout, o) && Faithful(p, log, writes)
    requires key.zoneId == zoneId
    modifies w`store, w`now, w`troubles, w`journal, p`proven, control`mutationInFlight
    ensures !control.mutationInFlight
    ensures w.journal == base + writes' && AllPrudent(writes', w.requestTimeout, o) && Faithful(p, log, writes')
    ensures old(w.now) <= w.now <= Later(old(w.now), o.deadline)
    ensures v.count == AsExisting && (zoneId in old(p.proven) ==> writes' == writes)
    ensures CreationCount(writes') == CreationCount(writes)
    ensures StopsRight(v)
    ensures o.allowProbe && v.failures == [] ==> zoneId in p.proven
    ensures Mild(w, cover, Probe(key, seen), o, old(w.store)) ==> Unharmed(w, cover, o, old(w.store), w.store)
    ensures var m := Probe(key, seen);
            writes' == writes || Sent(writes, writes', m, Aimed(w, cover, m, old(w.store)), v.failures == [])
    ensures old(w.troubles) <= w.troubles && old(p.proven) <= p.proven
    ensures Aimed(w, cover, Probe(key, seen), old(w.store)) ==>
              && OnlyAt(w, cover, RecordSlot(key, seen), old(w.store), w.store)
              && (Calm(w, old(w.troubles), o) ==> v.failures == [])
  {
    writes' := writes;
    if !o.allowProbe || zoneId in p.proven {
      return CheckVisit(AsExisting, [], false), writes;
    }
    if !CanFinish(w.now, w.requestTimeout, o.deadline) {
      return CheckVisit(AsExisting, [DeadlineFailure()], true), writes;
    }
    var answer;
    answer, writes' := SendAndProve(w, control, cover, p, zoneId, Probe(key, seen), o, base, writes, log);
    if answer.Err? {
      return CheckVisit(AsExisting, [ApiFailure(EditPermission, answer.error)], Aborts(answer.error)), writes';
    }
    return CheckVisit(AsExisting, [], false), writes';
  }

  /** The creation of a record that is missing again, if there is still time. */
  method CreateMissing(
      w: World, control: CycleControl, cover: set<Resource>, p: ZoneProofs, zoneId: string, r: RecordConfig,
      address: Address, o: Options,
      ghost base: seq<Issued>, ghost writes: seq<Issued>, ghost log: seq<(ConfiguredZone, string)>)
    returns (v: CheckVisit, ghost writes': seq<Issued>)
    requires !control.mutationInFlight
    requires w.journal == base + writes && AllPrudent(writes, w.requestTimeout, o) && Faithful(p, log, writes)
    requires o.allowCreate
    modifies w`store, w`now, w`troubles, w`journal, p`proven, control`mutationInFlight
    ensures !control.mutationInFlight
    ensures w.journal == base + writes' && AllPrudent(writes', w.requestTimeout, o) && Faithful(p, log, writes')
    ensures old(w.now) <= w.now <= Later(old(w.now), o.deadline)
    ensures (v.count == AsNothing || v.count == AsCreated) && StopsRight(v)
    ensures CreationCount(writes') == CreationCount(writes) + if v.count.AsCreated? then 1 else 0
    ensures v.failures == [] ==> v.count != AsNothing
    ensures v.failures == [] ==> zoneId in p.proven
    ensures old(w.troubles) <= w.troubles && old(p.proven) <= p.proven
    ensures var m, sure := Create(zoneId, PayloadFor(r, address)), Covered(w.zoneName, cover, ConfigSlot(zoneId, r));
            writes' == writes || Sent(writes, writes', m, sure, v.count.AsCreated?)
    ensures v.count.AsCreated? ==> Creates(writes', zoneId, r, address)
    ensures Unharmed(w, cover, o, old(w.store), w.store)
    ensures (v.count.AsCreated? && Covered(w.zoneName, cover, ConfigSlot(zoneId, r))
             && Matching(old(w.store), ConfigSlot(zoneId, r)) == {}) ==> Delivered(w.store, zoneId, r, address)
    ensures Unambiguous(w, cover, ConfigSlot(zoneId, r), old(w.store)) ==>
              && OnlyAt(w, cover, ConfigSlot(zoneId, r), old(w.store), w.store)
              && (Calm(w, old(w.troubles), o) ==> v.failures == [])
  {
    writes' := writes;
    if !CanFinish(w.now, w.requestTimeout, o.deadline) {
      return CheckVisit(AsNothing, [DeadlineFailure()], true), writes;
    }
    var answer;
    answer, writes' := SendAndProve(
      w, control, cover, p, zoneId, Create(zoneId, PayloadFor(r, address)), o, base, writes, log);
    if answer.Err? {
      return CheckVisit(AsNothing, [ApiFailure(Creation, answer.error)], Aborts(answer.error)), writes';
    }
    if Covered(w.zoneName, cover, ConfigSlot(zoneId, r)) && Matching(old(w.store), ConfigSlot(zoneId, r)) == {} {
      HoldsWhatIsOwed(w.store, zoneId, r, address);
    }
    return CheckVisit(AsCreated, [], false), writes';
  }

  /** The second lookup of a missing record, and its creation when it is still missing. */
  method RecheckAndCreate(
      w: World, control: CycleControl, cover: set<Resource>, p: ZoneProofs, zoneId: string, r: RecordConfig,
      address: Address, o: Options,
      ghost base: seq<Issued>, ghost writes: seq<Issued>, ghost log: seq<(ConfiguredZone, string)>)
    returns (v: CheckVisit, ghost writes': seq<Issued>)
    requires !control.mutationInFlight
    requires w.journal == base + writes && AllPrudent(writes, w.requestTimeout, o) && Faithful(p, log, writes)
    requires o.allowCreate
    modifies w`store, w`now, w`troubles, w`journal, w`lookups, p`proven, control`mutationInFlight
    ensures !control.mutationInFlight
    ensures w.journal == base + writes' && AllPrudent(writes', w.requestTimeout, o) && Faithful(p, log, writes')
    ensures old(w.now) <= w.now <= Later(old(w.now), o.deadline)
    ensures v.count != AsCreatable && StopsRight(v)
    ensures CreationCount(writes') == CreationCount(writes) + if v.count.AsCreated? then 1 else 0
    ensures v.failures == [] ==> v.count != AsNothing
    ensures o.allowProbe && v.failures == [] ==> zoneId in p.proven
    ensures old(w.troubles) <= w.troubles && old(p.proven) <= p.proven
    ensures AtMostOneMore(
              writes, writes', ConfigSlot(zoneId, r), Covered(w.zoneName, cover, ConfigSlot(zoneId, r)),
              Some(PayloadFor(r, address)))
    ensures v.count.AsCreated? ==> w.lookups == old(w.lookups) + 1
    ensures v.count.AsCreated? ==> Creates(writes', zoneId, r, address)
    ensures Covered(w.zoneName, cover, ConfigSlot(zoneId, r)) ==> Unharmed(w, cover, o, old(w.store), w.store)
    ensures v.count.AsCreated? && Covered(w.zoneName, cover, ConfigSlot(zoneId, r)) ==>
              Delivered(w.store, zoneId, r, address)
    ensures Unambiguous(w, cover, ConfigSlot(zoneId, r), old(w.store)) ==>
              && OnlyAt(w, cover, ConfigSlot(zoneId, r), old(w.store), w.store)
              && (Calm(w, old(w.troubles), o) ==> v.failures == [])
  {
    writes' := writes;
    if !CanFinish(w.now, w.requestTimeout, o.deadline) {
      return CheckVisit(AsNothing, [DeadlineFailure()], true), writes;
    }
    var s := ConfigSlot(zoneId, r);
    var rechecked := w.FindRecord(cover, s, o.deadline, control);
    ghost var between := w.store;
    ReadingIsHarmless(w, cover, s, old(w.store), between);
    if rechecked.TimedOut? {
      return CheckVisit(AsNothing, [DeadlineFailure()], true), writes;
    }
    if rechecked.result.Err? {
      var e := rechecked.result.error;
      return CheckVisit(AsNothing, [ApiFailure(RecordLookup, e)], Aborts(e)), writes;
    }
    v, writes' := HandleRechecked(
      w, control, cover, p, zoneId, rechecked.result.value, r, address, o, base, writes, log);
    if Unambiguous(w, cover, s, old(w.store)) {
      OnlyAtTwice(w, cover, s, old(w.store), between, w.store);
    }
    if Covered(w.zoneName, cover, s) {
      UnharmedTwice(w, cover, o, old(w.store), between, w.store);
    }
  }

  /** What follows the second lookup. */
  method HandleRechecked(
      w: World, control: CycleControl, cover: set<Resource>, p: ZoneProofs, zoneId: string,
      existing: Option<(RecordKey, DnsRecord)>, r: RecordConfig, address: Address, o: Options,
      ghost base: seq<Issued>, ghost writes: seq<Issued>, ghost log: seq<(ConfiguredZone, string)>)
    returns (v: CheckVisit, ghost writes': seq<Issued>)
    requires !control.mutationInFlight
    requires w.journal == base + writes && AllPrudent(writes, w.requestTimeout, o) && Faithful(p, log, writes)
    requires o.allowCreate && FlatLookup(w.store, ConfigSlot(zoneId, r)) == Ok(existing)
    modifies w`store, w`now, w`troubles, w`journal, p`proven, control`mutationInFlight
    ensures !control.mutationInFlight
    ensures w.journal == base + writes' && AllPrudent(writes', w.requestTimeout, o) && Faithful(p, log, writes')
    ensures old(w.now) <= w.now <= Later(old(w.now), o.deadline)
    ensures v.count != AsCreatable && StopsRight(v)
    ensures CreationCount(writes') == CreationCount(writes) + if v.count.AsCreated? then 1 else 0
    ensures v.failures == [] ==> v.count != AsNothing
    ensures o.allowProbe && v.failures == [] ==> zoneId in p.proven
    ensures old(w.troubles) <= w.troubles && old(p.proven) <= p.proven
    ensures AtMostOneMore(
              writes, writes', ConfigSlot(zoneId, r), Covered(w.zoneName, cover, ConfigSlot(zoneId, r)),
              Some(PayloadFor(r, address)))
    ensures v.count.AsCreated? ==> Creates(writes', zoneId, r, address)
    ensures Covered(w.zoneName, cover, ConfigSlot(zoneId, r)) ==> Unharmed(w, cover, o, old(w.store), w.store)
    ensures v.count.AsCreated? && Covered(w.zoneName, cover, ConfigSlot(zoneId, r)) ==>
              Delivered(w.store, zoneId, r, address)
    ensures Unambiguous(w, cover, ConfigSlot(zoneId, r), old(w.store)) ==>
              && OnlyAt(w, cover, ConfigSlot(zoneId, r), old(w.store), w.store)
              && (Calm(w, old(w.troubles), o) ==> v.failures == [])
  {
    if existing.Some? {
      var (key, seen) := existing.value;
      FoundIsAimed(w, cover, ConfigSlot(zoneId, r), w.store);
      v, writes' := HandleExisting(w, control, cover, p, zoneId, key, seen, o, base, writes, log);
    } else {
      v, writes' := CreateMissing(w, control, cover, p, zoneId, r, address, o, base, writes, log);
    }
  }

  method HandleMissing(
      w: World, control: CycleControl, cover: set<Resource>, p: ZoneProofs, zoneId: string, r: RecordConfig,
      a: DiscoveredAddresses, o: Options,
      ghost base: seq<Issued>, ghost writes: seq<Issued>, ghost log: seq<(ConfiguredZone, string)>)
    returns (v: CheckVisit, ghost writes': seq<Issued>)
    requires !control.mutationInFlight
    requires w.journal == base + writes && AllPrudent(writes, w.requestTimeout, o) && Faithful(p, log, writes)
    modifies w`store, w`now, w`troubles, w`journal, w`lookups, p`proven, control`mutationInFlight
    ensures !control.mutationInFlight
    ensures w.journal == base + writes' && AllPrudent(writes', w.requestTimeout, o) && Faithful(p, log, writes')
    ensures old(w.now) <= w.now <= Later(old(w.now), o.deadline)
    ensures StopsRight(v)
    ensures CreationCount(writes') == CreationCount(writes) + if v.count.AsCreated? then 1 else 0
    ensures v.failures == [] && ForRecord(a, r).Some? ==> v.count != AsNothing
    ensures v.failures == [] && v.count == AsNothing ==> o.allowCreate && r.createIfMissing && ForRecord(a, r).None?
    ensures v.count == AsCreatable ==> r.createIfMissing && !o.allowCreate
    ensures v.count == AsExisting ==> o.allowCreate
    ensures !r.createIfMissing ==> v == CheckVisit(AsNothing, [Failure(RecordLookup, Permanent, None)], false)
    ensures old(w.troubles) <= w.troubles && old(p.proven) <= p.proven
    ensures v.failures == [] && o.allowCreate && o.allowProbe && ForRecord(a, r).Some? ==> zoneId in p.proven
    ensures v.count.AsCreated? ==> w.lookups == old(w.lookups) + 1
    ensures AtMostOneMore(
              writes, writes', ConfigSlot(zoneId, r), Covered(w.zoneName, cover, ConfigSlot(zoneId, r)), Offer(r, a))
    ensures Covered(w.zoneName, cover, ConfigSlot(zoneId, r)) ==> Unharmed(w, cover, o, old(w.store), w.store)
    ensures v.count.AsCreated? && Covered(w.zoneName, cover, ConfigSlot(zoneId, r)) && OfTheirFamilies(a) ==>
              UpToDateAt(w.store, r, zoneId, a)
    ensures Unambiguous(w, cover, ConfigSlot(zoneId, r), old(w.store)) ==>
              && OnlyAt(w, cover, ConfigSlot(zoneId, r), old(w.store), w.store)
              && (Calm(w, old(w.troubles), o) && r.createIfMissing ==> v.failures == [])
  {
    writes' := writes;
    var address := ForRecord(a, r);
    if !r.createIfMissing {
      v := CheckVisit(AsNothing, [Failure(RecordLookup, Permanent, None)], false);
    } else if !o.allowCreate {
      v := CheckVisit(AsCreatable, [], false);
    } else if address.None? {
      v := CheckVisit(AsNothing, [], false);
    } else {
      v, writes' := RecheckAndCreate(w, control, cover, p, zoneId, r, address.value, o, base, writes, log);
      if OfTheirFamilies(a) {
        ForRecordExactly(a, r, address.value);
      }
    }
  }

  datatype Inspection =
    | LookTimedOut
    | LookFailed(stage: FailureStage, error: ApiError)
    | Looked(zoneId: string, existing: Option<(RecordKey, DnsRecord)>)

  method ResolveRecordZone(
      w: World, control: CycleControl, cover: set<Resource>, p: ZoneProofs, r: RecordConfig, deadline: nat,
      ghost before: seq<(ConfiguredZone, string)>, ghost log: seq<(ConfiguredZone, string)>, ghost writes: seq<Issued>)
    returns (reply: Reply<string>, ghost zone: Option<string>)
    requires !control.mutationInFlight
    requires Faithful(p, log, writes) && ZoneOf(r) in p.expected && w.resolutions == before + log
    modifies w`store, w`now, w`troubles, w`resolutions, p`resolved
    ensures Faithful(p, log + Resolved(r, zone), writes) && w.resolutions == before + (log + Resolved(r, zone))
    ensures old(w.now) <= w.now <= Later(old(w.now), deadline)
    ensures old(w.troubles) <= w.troubles && w.Protected(cover) == old(w.Protected(cover))
    ensures zone.Some? <==> reply.Replied? && reply.result.Ok?
    ensures zone.Some? ==>
              reply.result.value == zone.value && InZone(w, zone.value, r)
              && ZoneOf(r) in p.resolved && p.resolved[ZoneOf(r)] == zone.value
    ensures w.troubles == old(w.troubles) ==> zone.Some?
  {
    zone := None;
    reply := w.ResolveZone(cover, ZoneOf(r), deadline, control);
    if reply.Replied? && reply.result.Ok? {
      p.MarkResolved(r, reply.result.value);
      zone := Some(reply.result.value);
      ghost var log' := log + Resolved(r, zone);
      assert log'[..|log'| - 1] == log;
    }
    assert before + (log + Resolved(r, zone)) == (before + log) + Resolved(r, zone);
    assert zone.None? ==> log + Resolved(r, zone) == log;
  }

  method InspectRecord(
      w: World, control: CycleControl, cover: set<Resource>, p: ZoneProofs, r: RecordConfig, deadline: nat,
      ghost before: seq<(ConfiguredZone, string)>, ghost log: seq<(ConfiguredZone, string)>, ghost writes: seq<Issued>)
    returns (i: Inspection, ghost zone: Option<string>)
    requires !control.mutationInFlight
    requires Faithful(p, log, writes) && ZoneOf(r) in p.expected && w.resolutions == before + log
    modifies w`store, w`now, w`troubles, w`resolutions, w`lookups, p`resolved
    ensures Faithful(p, log + Resolved(r, zone), writes) && w.resolutions == before + (log + Resolved(r, zone))
    ensures old(w.now) <= w.now <= Later(old(w.now), deadline)
    ensures old(w.troubles) <= w.troubles && w.Protected(cover) == old(w.Protected(cover))
    ensures zone.Some? ==>
              InZone(w, zone.value, r) && ZoneOf(r) in p.resolved && p.resolved[ZoneOf(r)] == zone.value
    ensures i.LookFailed? ==> i.stage == if zone.None? then ZoneLookup else RecordLookup
    ensures i.Looked? ==> w.lookups == old(w.lookups) + 1
    ensures i.Looked? ==> zone == Some(i.zoneId) && FlatLookup(w.store, ConfigSlot(i.zoneId, r)) == Ok(i.existing)
    ensures w.troubles == old(w.troubles) && Promising(w, cover, r, old(w.store)) ==> i.Looked?
  {
    var reply;
    reply, zone := ResolveRecordZone(w, control, cover, p, r, deadline, before, log, writes);
    if reply.TimedOut? {
      return LookTimedOut, zone;
    }
    if reply.result.Err? {
      return LookFailed(ZoneLookup, reply.result.error), zone;
    }
    var zoneId := reply.result.value;
    var existing := w.FindRecord(cover, ConfigSlot(zoneId, r), deadline, control);
    if Promising(w, cover, r, old(w.store)) {
      FeasibleLookup(w, cover, r, zoneId, old(w.store), w.store);
    }
    if existing.TimedOut? {
      return LookTimedOut, zone;
    }
    if existing.result.Err? {
      return LookFailed(RecordLookup, existing.result.error), zone;
    }
    return Looked(zoneId, existing.result.value), zone;
  }

  /** An existing record is probed, a missing one reported or created. */
  method HandleLooked(
      w: World, control: CycleControl, cover: set<Resource>, p: ZoneProofs, zoneId: string,
      existing: Option<(RecordKey, DnsRecord)>, r: RecordConfig, a: DiscoveredAddresses, o: Options,
      ghost base: seq<Issued>, ghost writes: seq<Issued>, ghost log: seq<(ConfiguredZone, string)>)
    returns (v: CheckVisit, ghost writes': seq<Issued>)
    requires !control.mutationInFlight
    requires w.journal == base + writes && AllPrudent(writes, w.requestTimeout, o) && Faithful(p, log, writes)
    requires FlatLookup(w.store, ConfigSlot(zoneId, r)) == Ok(existing)
    modifies w`store, w`now, w`troubles, w`journal, w`lookups, p`proven, control`mutationInFlight
    ensures !control.mutationInFlight
    ensures w.journal == base + writes' && AllPrudent(writes', w.requestTimeout, o) && Faithful(p, log, writes')
    ensures old(w.now) <= w.now <= Later(old(w.now), o.deadline)
    ensures StopsRight(v)
    ensures CreationCount(writes') == CreationCount(writes) + if v.count.AsCreated? then 1 else 0
    ensures v.failures == [] && ForRecord(a, r).Some? ==> v.count != AsNothing
    ensures old(w.troubles) <= w.troubles && old(p.proven) <= p.proven
    ensures v.failures == [] && o.allowCreate && o.allowProbe && ForRecord(a, r).Some? ==> zoneId in p.proven
    ensures v.count.AsCreated? ==> w.lookups == old(w.lookups) + 1
    ensures v.count.AsCreatable? ==> existing.None? && r.createIfMissing && !o.allowCreate
    ensures v.count.AsExisting? && !o.allowCreate ==> existing.Some?
    ensures AtMostOneMore(
              writes, writes', ConfigSlot(zoneId, r), Covered(w.zoneName, cover, ConfigSlot(zoneId, r)), Offer(r, a))
    ensures Covered(w.zoneName, cover, ConfigSlot(zoneId, r)) ==> Unharmed(w, cover, o, old(w.store), w.store)
    ensures v.count.AsCreated? && Covered(w.zoneName, cover, ConfigSlot(zoneId, r)) && OfTheirFamilies(a) ==>
              UpToDateAt(w.store, r, zoneId, a)
    ensures Unambiguous(w, cover, ConfigSlot(zoneId, r), old(w.store)) ==>
              && OnlyAt(w, cover, ConfigSlot(zoneId, r), old(w.store), w.store)
              && (Calm(w, old(w.troubles), o) && (existing.None? ==> r.createIfMissing) ==> v.failures == [])
  {
    if existing.Some? {
      var (key, seen) := existing.value;
      FoundIsAimed(w, cover, ConfigSlot(zoneId, r), w.store);
      v, writes' := HandleExisting(w, control, cover, p, zoneId, key, seen, o, base, writes, log);
    } else {
      v, writes' := HandleMissing(w, control, cover, p, zoneId, r, a, o, base, writes, log);
    }
  }

  /** In every zone its own may be resolved to, the record's slot is under the guard, and it can be found or created. */
  ghost predicate Promising(w: World, cover: set<Resource>, r: RecordConfig, store: Store) {
    Feasible(w, store, r) && Tidy(r) && Named(r) in cover
  }

  /** What a lookup under the guard then finds. */
  lemma PromisingSlot(
      w: World, cover: set<Resource>, r: RecordConfig, id: string, before: Store, after: Store)
    requires Promising(w, cover, r, before) && InZone(w, id, r)
    requires GuardedPart(w.zoneName, cover, before) == GuardedPart(w.zoneName, cover, after)
    ensures Unambiguous(w, cover, ConfigSlot(id, r), after)
    ensures OnlyAt(w, cover, ConfigSlot(id, r), before, after)
    ensures FlatLookup(after, ConfigSlot(id, r)) == Ok(None) ==> r.createIfMissing
  {
    SlotIsCovered(w, cover, id, r);
    GuardedPartFixesSlot(w.zoneName, cover, before, after, ConfigSlot(id, r));
    ReadingIsHarmless(w, cover, ConfigSlot(id, r), before, after);
  }

  method CheckRecord(
      w: World, control: CycleControl, cover: set<Resource>, p: ZoneProofs, r: RecordConfig,
      a: DiscoveredAddresses, o: Options, ghost base: seq<Issued>, ghost writes: seq<Issued>,
      ghost before: seq<(ConfiguredZone, string)>, ghost log: seq<(ConfiguredZone, string)>)
    returns (v: CheckVisit, ghost writes': seq<Issued>, ghost zone: Option<string>)
    requires !control.mutationInFlight
    requires Faithful(p, log, writes) && ZoneOf(r) in p.expected
    requires w.journal == base + writes && w.resolutions == before + log && AllPrudent(writes, w.requestTimeout, o)
    modifies w, p, control`mutationInFlight
    ensures !control.mutationInFlight
    ensures Faithful(p, log + Resolved(r, zone), writes') && AllPrudent(writes', w.requestTimeout, o)
    ensures w.journal == base + writes' && w.resolutions == before + (log + Resolved(r, zone))
    ensures old(w.now) <= w.now <= Later(old(w.now), o.deadline)
    ensures StopsRight(v)
    ensures CreationCount(writes') == CreationCount(writes) + if v.count.AsCreated? then 1 else 0
    ensures v.failures == [] && ForRecord(a, r).Some? ==> v.count != AsNothing
    ensures old(w.troubles) <= w.troubles && old(p.proven) <= p.proven
    ensures writes' == writes || (
              && zone.Some?
              && var s := ConfigSlot(zone.value, r);
                 AtMostOneMore(writes, writes', s, Covered(w.zoneName, cover, s), Offer(r, a)))
    ensures v.count.AsCreated? ==>
              zone.Some? && w.lookups == old(w.lookups) + 2
    ensures v.count.AsCreatable? ==> r.createIfMissing && !o.allowCreate
    ensures Tidy(r) && Named(r) in cover ==> Unharmed(w, cover, o, old(w.store), w.store)
    ensures v.count.AsCreated? && Tidy(r) && Named(r) in cover && OfTheirFamilies(a) ==>
              zone.Some? && UpToDateAt(w.store, r, zone.value, a)
    ensures Promising(w, cover, r, old(w.store)) ==> VisitKept(w, cover, r, zone, old(w.store), w.store)
    ensures (Promising(w, cover, r, old(w.store)) && Calm(w, old(w.troubles), o)
             && o.allowCreate && o.allowProbe && ForRecord(a, r).Some?) ==>
              v.failures == [] && zone.Some? && zone.value in p.proven
  {
    var i;
    i, zone := InspectRecord(w, control, cover, p, r, o.deadline, before, log, writes);
    writes' := writes;
    ghost var between := w.store;
    if Promising(w, cover, r, old(w.store)) && zone.Some? {
      PromisingSlot(w, cover, r, zone.value, old(w.store), between);
    }
    if i.LookTimedOut? {
      return CheckVisit(AsNothing, [DeadlineFailure()], true), writes, zone;
    }
    if i.LookFailed? {
      return CheckVisit(AsNothing, [ApiFailure(i.stage, i.error)], Aborts(i.error)), writes, zone;
    }
    v, writes' := HandleLooked(
      w, control, cover, p, i.zoneId, i.existing, r, a, o, base, writes, log + Resolved(r, zone));
    if Tidy(r) && Named(r) in cover {
      SlotIsCovered(w, cover, i.zoneId, r);
      UnharmedTwice(w, cover, o, old(w.store), between, w.store);
    }
    if Promising(w, cover, r, old(w.store)) {
      OnlyAtTwice(w, cover, ConfigSlot(i.zoneId, r), old(w.store), between, w.store);
    }
  }

  function Total(r: CheckReport): nat {
    r.existing + r.creatable + r.created
  }

  /** Adds a visit to the report. */
  function Noted(report: CheckReport, v: CheckVisit): (r: CheckReport)
    ensures r.failures == report.failures + v.failures
    ensures Total(r) == Total(report) + if v.count.AsNothing? then 0 else 1
    ensures r.creatable == report.creatable + if v.count.AsCreatable? then 1 else 0
  {
    report.(
      existing := report.existing + (if v.count.AsExisting? then 1 else 0),
      creatable := report.creatable + (if v.count.AsCreatable? then 1 else 0),
      created := report.created + (if v.count.AsCreated? then 1 else 0),
      failures := report.failures + v.failures)
  }

  /** What was the case when the record loop began, and whether the check had any reason to fail. */
  datatype CheckOutset = CheckOutset(
    now: nat, troubles: nat, store: Store, journal: seq<Issued>, resolutions: seq<(ConfiguredZone, string)>,
    capable: bool)

  /**
   * A check that may create and probe has no reason to fail when it runs under the guard of its own
   * records, every family was discovered, and every record can be found or created.
   */
  ghost predicate Capable(
    w: World, cover: set<Resource>, records: seq<RecordConfig>, a: DiscoveredAddresses, o: Options, store: Store)
  {
    Willing(w, cover, records, a, o) && AllFeasible(w, store, records)
  }

  ghost predicate Willing(
    w: World, cover: set<Resource>, records: seq<RecordConfig>, a: DiscoveredAddresses, o: Options)
  {
    && NamedApart(records) && cover == Resources(records)
    && o.allowCreate && o.allowProbe && DiscoveryFailures(a) == []
  }

  /** The records from index `k` on are feasible. */
  ghost predicate FeasibleFrom(w: World, store: Store, records: seq<RecordConfig>, k: nat) {
    forall j {:trigger Feasible(w, store, records[j])} :: k <= j < |records| ==> Feasible(w, store, records[j])
  }

  /** The zones of the first `count` records are resolved to IDs that are proven. */
  predicate VerifiedUpTo(
    resolved: map<ConfiguredZone, string>, proven: set<string>, records: seq<RecordConfig>, count: nat)
    requires count <= |records|
  {
    count == 0 || (
      && VerifiedUpTo(resolved, proven, records, count - 1)
      && Verified(resolved, proven, ZoneOf(records[count - 1])))
  }

  /** A resolution to a proven ID leaves no zone unverified, even if the zone had another ID before. */
  lemma {:induction false} StayVerified(
      resolved: map<ConfiguredZone, string>, z: ConfiguredZone, id: string, proven: set<string>,
      proven': set<string>, records: seq<RecordConfig>, count: nat)
    requires count <= |records| && VerifiedUpTo(resolved, proven, records, count)
    requires proven <= proven' && id in proven'
    ensures VerifiedUpTo(resolved[z := id], proven', records, count)
  {
    if count > 0 {
      StayVerified(resolved, z, id, proven, proven', records, count - 1);
    }
  }

  lemma {:induction false} VerifiedAt(
      resolved: map<ConfiguredZone, string>, proven: set<string>, records: seq<RecordConfig>, count: nat, j: nat)
    requires j < count <= |records| && VerifiedUpTo(resolved, proven, records, count)
    ensures Verified(resolved, proven, ZoneOf(records[j]))
  {
    if j < count - 1 {
      VerifiedAt(resolved, proven, records, count - 1, j);
    }
  }

  lemma EveryZoneVerified(resolved: map<ConfiguredZone, string>, proven: set<string>, records: seq<RecordConfig>)
    requires VerifiedUpTo(resolved, proven, records, |records|)
    ensures forall z :: z in ExpectedZones(records) ==> Verified(resolved, proven, z)
  {
    forall z | z in ExpectedZones(records)
      ensures Verified(resolved, proven, z)
    {
      var j :| 0 <= j < |records| && ZoneOf(records[j]) == z;
      VerifiedAt(resolved, proven, records, |records|, j);
    }
  }

  /** What holds after `turns` records have been checked. */
  ghost predicate Checking(
    w: World, cover: set<Resource>, p: ZoneProofs, records: seq<RecordConfig>, a: DiscoveredAddresses, o: Options,
    turns: nat, report: CheckReport, r: CheckReport, first: CheckOutset, writes: seq<Issued>,
    log: seq<(ConfiguredZone, string)>)
    reads w, p
  {
    && records != [] && turns <= |records|
    && Faithful(p, log, writes) && AllPrudent(writes, w.requestTimeout, o) && Placed(w, cover, records, a, log, writes)
    && w.journal == first.journal + writes && w.resolutions == first.resolutions + log
    && first.now <= w.now <= Later(first.now, o.deadline)
    && Total(r) <= turns && (r.failures == [] ==> Total(r) == turns)
    && r.created == CreationCount(writes)
    && (o.allowCreate ==> r.creatable == 0)
    && r.authenticated == report.authenticated && r.records == report.records
    && (report.failures != [] ==> r.failures != [])
    && (Guarded(cover, records) ==> Unharmed(w, cover, o, first.store, w.store))
  }

  /**
   * If the check had no reason to fail and nothing went wrong since, then it is clean so far, and
   * the zones of the records so far have been proven.
   */
  ghost predicate Untroubled(
    w: World, p: ZoneProofs, records: seq<RecordConfig>, o: Options, turns: nat, first: CheckOutset,
    clean: bool)
    reads w, p
  {
    && records != [] && turns <= |records|
    && first.troubles <= w.troubles
    && (first.capable ==> FeasibleFrom(w, w.store, records, turns))
    && (first.capable && Calm(w, first.troubles, o) ==>
          clean && VerifiedUpTo(p.resolved, p.proven, records, turns))
  }

  lemma NextIsPromising(w: World, records: seq<RecordConfig>, turns: nat, store: Store)
    requires NamedApart(records) && turns < |records| && FeasibleFrom(w, store, records, turns)
    ensures Promising(w, Resources(records), records[turns], store)
  {
    assert Feasible(w, store, records[turns]) && Tidy(records[turns]);
  }

  lemma OthersStayPromising(
      w: World, records: seq<RecordConfig>, turns: nat, zone: Option<string>, before: Store, after: Store)
    requires NamedApart(records) && turns < |records| && FeasibleFrom(w, before, records, turns)
    requires VisitKept(w, Resources(records), records[turns], zone, before, after)
    ensures FeasibleFrom(w, after, records, turns + 1)
  {
    var later := set j | j in Indices(|records|) && turns < j;
    OthersStayFeasible(w, records, turns, zone, before, after, later);
    assert later - {turns} == later;
  }

  lemma VerifiedNext(
      log: seq<(ConfiguredZone, string)>, id: string, proven: set<string>, proven': set<string>,
      records: seq<RecordConfig>, turns: nat)
    requires turns < |records| && VerifiedUpTo(LastResolved(log), proven, records, turns)
    requires proven <= proven' && id in proven'
    ensures VerifiedUpTo(LastResolved(log + Resolved(records[turns], Some(id))), proven', records, turns + 1)
  {
    var log' := log + Resolved(records[turns], Some(id));
    assert log'[..|log|] == log;
    StayVerified(LastResolved(log), ZoneOf(records[turns]), id, proven, proven', records, turns);
  }

  /** The check of the next record keeps it clean, when there is no reason for it to fail. */
  method CheckIndexed(
      w: World, control: CycleControl, cover: set<Resource>, p: ZoneProofs, records: seq<RecordConfig>,
      a: DiscoveredAddresses, o: Options, turns: nat, ghost first: CheckOutset, ghost clean: bool,
      ghost writes: seq<Issued>, ghost log: seq<(ConfiguredZone, string)>)
    returns (v: CheckVisit, ghost writes': seq<Issued>, ghost log': seq<(ConfiguredZone, string)>)
    requires !control.mutationInFlight
    requires Faithful(p, log, writes) && p.expected == ExpectedZones(records)
    requires CoversFamilies(a, records) && OfTheirFamilies(a)
    requires w.journal == first.journal + writes && w.resolutions == first.resolutions + log
    requires AllPrudent(writes, w.requestTimeout, o) && Placed(w, cover, records, a, log, writes)
    requires turns < |records| && Untroubled(w, p, records, o, turns, first, clean)
    requires first.capable ==> Willing(w, cover, records, a, o)
    modifies w, p, control`mutationInFlight
    ensures !control.mutationInFlight
    ensures Faithful(p, log', writes') && AllPrudent(writes', w.requestTimeout, o)
    ensures w.journal == first.journal + writes' && w.resolutions == first.resolutions + log'
    ensures old(w.now) <= w.now <= Later(old(w.now), o.deadline)
    ensures StopsRight(v)
    ensures CreationCount(writes') == CreationCount(writes) + if v.count.AsCreated? then 1 else 0
    ensures v.failures == [] && DiscoveryFailures(a) == [] ==> v.count != AsNothing
    ensures v.count.AsCreatable? ==> !o.allowCreate
    ensures Placed(w, cover, records, a, log', writes')
    ensures Untroubled(w, p, records, o, turns + 1, first, clean && v.failures == [])
    ensures Guarded(cover, records) ==> Unharmed(w, cover, o, old(w.store), w.store)
  {
    var r := records[turns];
    ghost var zone;
    assert Guarded(cover, records) ==> Tidy(r) && Named(r) in cover;
    if first.capable {
      NextIsPromising(w, records, turns, w.store);
    }
    if ForRecord(a, r).None? {
      MissingAddressWasReported(a, records, turns);
    }
    v, writes', zone := CheckRecord(w, control, cover, p, r, a, o, first.journal, writes, first.resolutions, log);
    log' := log + Resolved(r, zone);
    StaysPlaced(w, cover, records, a, log, log', writes, writes', turns, if zone.Some? then zone.value else "");
    if first.capable {
      OthersStayPromising(w, records, turns, zone, old(w.store), w.store);
      if Calm(w, first.troubles, o) {
        VerifiedNext(log, zone.value, old(p.proven), p.proven, records, turns);
      }
    }
  }

  /** The last failure calls for a stop. */
  predicate EndsStopping(failures: seq<Failure>) {
    failures != [] && Stopping(failures[|failures| - 1])
  }

  /** The check of the next record, and its entry in the report. It calls for a stop exactly by a new failure. */
  method CheckTurn(
      w: World, control: CycleControl, cover: set<Resource>, p: ZoneProofs, records: seq<RecordConfig>,
      a: DiscoveredAddresses, o: Options, turns: nat, r: CheckReport, ghost report: CheckReport,
      ghost first: CheckOutset, ghost writes: seq<Issued>, ghost log: seq<(ConfiguredZone, string)>)
    returns (r': CheckReport, stop: bool, ghost writes': seq<Issued>, ghost log': seq<(ConfiguredZone, string)>)
    requires !control.mutationInFlight
    requires p.expected == ExpectedZones(records) && CoversFamilies(a, records) && OfTheirFamilies(a)
    requires turns < |records| && Checking(w, cover, p, records, a, o, turns, report, r, first, writes, log)
    requires Untroubled(w, p, records, o, turns, first, r.failures == report.failures)
    requires DiscoveryFailures(a) != [] ==> report.failures != []
    requires first.capable ==> Willing(w, cover, records, a, o)
    modifies w, p, control`mutationInFlight
    ensures !control.mutationInFlight
    ensures Checking(w, cover, p, records, a, o, turns + 1, report, r', first, writes', log')
    ensures Untroubled(w, p, records, o, turns + 1, first, r'.failures == report.failures)
    ensures stop <==> |r'.failures| > |r.failures| && EndsStopping(r'.failures)
    ensures stop ==> !(first.capable && Calm(w, first.troubles, o))
  {
    var v;
    v, writes', log' :=
      CheckIndexed(w, control, cover, p, records, a, o, turns, first, r.failures == report.failures, writes, log);
    r' := Noted(r, v);
    stop := v.stop;
    if Guarded(cover, records) {
      UnharmedTwice(w, cover, o, first.store, old(w.store), w.store);
    }
  }

  /** The loop over the records, which ends early only after a failure that calls for it. */
  method CheckInOrder(
      w: World, control: CycleControl, cover: set<Resource>, p: ZoneProofs, records: seq<RecordConfig>,
      a: DiscoveredAddresses, o: Options, report: CheckReport, ghost first: CheckOutset)
    returns (r: CheckReport, turns: nat, ghost writes: seq<Issued>, ghost log: seq<(ConfiguredZone, string)>)
    requires !control.mutationInFlight
    requires p.expected == ExpectedZones(records) && CoversFamilies(a, records) && OfTheirFamilies(a)
    requires Checking(w, cover, p, records, a, o, 0, report, report, first, [], [])
    requires Untroubled(w, p, records, o, 0, first, true)
    requires DiscoveryFailures(a) != [] ==> report.failures != []
    requires first.capable ==> Willing(w, cover, records, a, o)
    modifies w, p, control`mutationInFlight
    ensures turns <= |records| && Checking(w, cover, p, records, a, o, turns, report, r, first, writes, log)
    ensures Untroubled(w, p, records, o, turns, first, r.failures == report.failures)
    ensures turns < |records| ==> EndsStopping(r.failures) && !(first.capable && Calm(w, first.troubles, o))
  {
    r, turns := report, 0;
    writes, log := [], [];
    var stop := false;
    while turns < |records| && !stop
      invariant turns <= |records| && !control.mutationInFlight
      invariant Checking(w, cover, p, records, a, o, turns, report, r, first, writes, log)
      invariant Untroubled(w, p, records, o, turns, first, r.failures == report.failures)
      invariant stop ==> EndsStopping(r.failures) && !(first.capable && Calm(w, first.troubles, o))
      decreases |records| - turns
    {
      r, stop, writes, log := CheckTurn(w, control, cover, p, records, a, o, turns, r, report, first, writes, log);
      turns := turns + 1;
    }
  }

  method CheckRecords(
      w: World, cover: set<Resource>, p: ZoneProofs, records: seq<RecordConfig>, a: DiscoveredAddresses, o: Options,
      report: CheckReport)
    returns (r: CheckReport, ghost writes: seq<Issued>, ghost log: seq<(ConfiguredZone, string)>)
    requires Faithful(p, [], []) && p.expected == ExpectedZones(records)
    requires CoversFamilies(a, records) && OfTheirFamilies(a)
    requires records != [] && report.existing == report.creatable == report.created == 0
    requires DiscoveryFailures(a) != [] ==> report.failures != []
    modifies w, p
    ensures Placed(w, cover, records, a, log, writes)
    ensures Faithful(p, log, writes) && AllPrudent(writes, w.requestTimeout, o)
    ensures w.journal == old(w.journal) + writes && w.resolutions == old(w.resolutions) + log
    ensures old(w.now) <= w.now <= Later(old(w.now), o.deadline)
    ensures r.existing + r.creatable + r.created <= |records| && r.created == CreationCount(writes)
    ensures r.failures == [] ==> r.existing + r.creatable + r.created == |records|
    ensures o.allowCreate ==> r.creatable == 0
    ensures r.authenticated == report.authenticated && r.records == report.records
    ensures old(w.troubles) <= w.troubles
    ensures Guarded(cover, records) ==> Unharmed(w, cover, o, old(w.store), w.store)
    ensures Capable(w, cover, records, a, o, old(w.store)) && Calm(w, old(w.troubles), o) ==>
              r.failures == report.failures && EditProved(records, log, writes)
  {
    ghost var first := CheckOutset(
      w.now, w.troubles, w.store, w.journal, w.resolutions, Capable(w, cover, records, a, o, w.store));
    var control := new CycleControl();
    var turns;
    r, turns, writes, log := CheckInOrder(w, control, cover, p, records, a, o, report, first);
    if turns == |records| && VerifiedUpTo(p.resolved, p.proven, records, |records|) {
      EveryZoneVerified(p.resolved, p.proven, records);
    }
  }

  // ----- The whole check -----

  function TargetFailures(n: nat): (r: seq<Failure>)
    ensures |r| == n
  {
    seq(n, _ => Failure(EditPermission, Permanent, None))
  }

  /** `summarize_check_proofs`: the two fields that report on edit permission. */
  method Summarize(report: CheckReport, p: ZoneProofs) returns (r: CheckReport)
    requires p.Valid()
    ensures r == report.(verifiedZones := p.VerifiedCount(), editVerified := r.editVerified)
    ensures r.editVerified <==> forall z :: z in p.expected ==> Verified(p.resolved, p.proven, z)
  {
    var complete := p.IsComplete();
    r := report.(verifiedZones := p.VerifiedCount(), editVerified := complete);
  }

  /** Every configured zone was last resolved to an ID under which this run had a write acknowledged. */
  ghost predicate EditProved(records: seq<RecordConfig>, log: seq<(ConfiguredZone, string)>, writes: seq<Issued>) {
    forall z :: z in ExpectedZones(records) ==> Verified(LastResolved(log), AckedZones(writes), z)
  }

  datatype TokenVerdict = TokenVerdict(failure: Option<Failure>, stop: bool)

  /** The check ends with the token check: at the deadline, or because the token is refused or limited. */
  predicate EndsCheck(fault: Option<ApiError>) {
    fault.None? || fault.value in {Unauthorized, TokenInactive, PermissionDenied} || fault.value.RateLimitedBy?
  }

  /** The token check: cut off by the deadline, refused, or passed. Some refusals end the check. */
  method VerifyToken(w: World, cover: set<Resource>, deadline: nat)
    returns (v: TokenVerdict, ghost fault: Option<ApiError>)
    modifies w`store, w`now, w`troubles
    ensures old(w.now) <= w.now <= Later(old(w.now), deadline)
    ensures w.Protected(cover) == old(w.Protected(cover))
    ensures v.stop <==> v.failure.Some? && EndsCheck(fault)
    ensures v.failure.Some? ==>
              v.failure.value == if fault.None? then DeadlineFailure() else ApiFailure(TokenCheck, fault.value)
    ensures w.troubles == old(w.troubles) + if v.failure.Some? then 1 else 0
  {
    fault := None;
    var inTime := w.ReadUntil(cover, deadline, null);
    if !inTime {
      return TokenVerdict(Some(DeadlineFailure()), true), None;
    }
    var faulty: bool, error: ApiError := *, *;
    if faulty {
      w.troubles := w.troubles + 1;
      return TokenVerdict(Some(ApiFailure(TokenCheck, error)), Aborts(error) || error.PermissionDenied?), Some(error);
    }
    return TokenVerdict(None, false), None;
  }

  /**
   * `check_until`. Edit permission is reported exactly when it was proved in this run; success means
   * that every record was counted; every write goes to the slot of a configured record, in a zone
   * that the record's own zone was resolved to, and finishes before the deadline; and a check that may
   * neither create nor probe writes nothing and does not succeed. A check that may do both fails
   * only for cause: a failed request, too little time, or a record that cannot be found or created.
   */
  method CheckUntil(w: World, cover: set<Resource>, records: seq<RecordConfig>, o: Options)
    returns (r: CheckReport, ghost writes: seq<Issued>, ghost log: seq<(ConfiguredZone, string)>,
             ghost addresses: Option<DiscoveredAddresses>)
    requires records != []
    modifies w
    ensures w.journal == old(w.journal) + writes && w.resolutions == old(w.resolutions) + log
    ensures r.editVerified <==> EditProved(records, log, writes)
    ensures r.created == CreationCount(writes)
    ensures r.IsSuccess() ==> r.existing + r.creatable + r.created == r.records == |records|
    ensures o.allowCreate ==> r.creatable == 0
    ensures addresses.None? ==> writes == []
    ensures addresses.Some? ==>
              OfTheirFamilies(addresses.value) && Placed(w, cover, records, addresses.value, log, writes)
    ensures Guarded(cover, records) ==> Unharmed(w, cover, o, old(w.store), w.store)
    ensures AllPrudent(writes, w.requestTimeout, o)
    ensures old(w.now) <= w.now <= Later(old(w.now), o.deadline)
    ensures !o.allowCreate && !o.allowProbe ==> writes == [] && !r.editVerified && !r.IsSuccess()
    ensures !r.editVerified ==> r.failures != []
    ensures Calm(w, old(w.troubles), o) ==> addresses.Some?
    ensures Calm(w, old(w.troubles), o) && Capable(w, cover, records, addresses.value, o, old(w.store)) ==>
              r.IsSuccess()
  {
    var p := new ZoneProofs(records);
    assert ZoneOf(records[0]) in ExpectedZones(records);
    writes, log, addresses := [], [], None;
    var found;
    r, found := Prelude(w, cover, records, o.deadline);
    if found.None? {
      r := Summarize(r, p);
      return;
    }
    addresses := found;
    if Capable(w, cover, records, found.value, o, old(w.store)) {
      FeasibleThroughInterference(w, records, old(w.store), w.store);
    }
    ghost var between := w.store;
    r, writes, log := CheckAndFinalize(w, cover, p, records, found.value, o, r);
    if Guarded(cover, records) {
      UnharmedTwice(w, cover, o, old(w.store), between, w.store);
    }
  }

  /** The token check and the discovery of addresses. Without addresses the check ends. */
  method Prelude(w: World, cover: set<Resource>, records: seq<RecordConfig>, deadline: nat)
    returns (r: CheckReport, found: Option<DiscoveredAddresses>)
    modifies w`store, w`now, w`troubles
    ensures old(w.now) <= w.now <= Later(old(w.now), deadline)
    ensures w.Protected(cover) == old(w.Protected(cover))
    ensures old(w.troubles) <= w.troubles && (w.troubles == old(w.troubles) ==> found.Some? && r.authenticated)
    ensures r == CheckReport(|records|, r.authenticated, 0, 0, 0, 0, false, r.failures)
    ensures found.None? ==> r.failures != []
    ensures found.Some? ==> CoversFamilies(found.value, records) && OfTheirFamilies(found.value)
    ensures found.Some? && DiscoveryFailures(found.value) != [] ==> r.failures != []
    ensures w.troubles == old(w.troubles) ==> r.failures == DiscoveryFailures(found.value)
  {
    r := CheckReport(|records|, false, 0, 0, 0, 0, false, []);
    ghost var fault;
    var token;
    token, fault := VerifyToken(w, cover, deadline);
    if token.failure.Some? {
      r := r.(failures := [token.failure.value]);
    }
    if token.stop {
      return r, None;
    }
    r := r.(authenticated := token.failure.None?);
    found := DiscoverRequired(w, null, cover, records, deadline);
    if found.None? {
      r := r.(failures := r.failures + [DeadlineFailure()]);
      return;
    }
    r := r.(failures := r.failures + DiscoveryFailures(found.value));
  }

  /** `finalize_check_report`, which adds one failure per unverified target. */
  method Finalize(report: CheckReport, p: ZoneProofs) returns (r: CheckReport)
    requires p.Valid()
    ensures r == report.(verifiedZones := p.VerifiedCount(), editVerified := r.editVerified, failures := r.failures)
    ensures r.editVerified <==> forall z :: z in p.expected ==> Verified(p.resolved, p.proven, z)
    ensures if r.editVerified then r.failures == report.failures else |r.failures| > |report.failures|
  {
    r := Summarize(report, p);
    var targets := p.UnverifiedTargets();
    r := r.(failures := r.failures + TargetFailures(|targets|));
  }

  /** The record loop and its summary. */
  method CheckAndFinalize(
      w: World, cover: set<Resource>, p: ZoneProofs, records: seq<RecordConfig>, a: DiscoveredAddresses, o: Options,
      report: CheckReport)
    returns (r: CheckReport, ghost writes: seq<Issued>, ghost log: seq<(ConfiguredZone, string)>)
    requires Faithful(p, [], []) && p.expected == ExpectedZones(records)
    requires CoversFamilies(a, records) && OfTheirFamilies(a)
    requires records != [] && report.existing == report.creatable == report.created == 0
    requires DiscoveryFailures(a) != [] ==> report.failures != []
    modifies w, p
    ensures w.journal == old(w.journal) + writes && w.resolutions == old(w.resolutions) + log
    ensures r.editVerified <==> EditProved(records, log, writes)
    ensures r.created == CreationCount(writes)
    ensures o.allowCreate ==> r.creatable == 0
    ensures r.failures == [] ==> r.editVerified && r.existing + r.creatable + r.created == |records|
    ensures r.authenticated == report.authenticated && r.records == report.records
    ensures Placed(w, cover, records, a, log, writes)
    ensures AllPrudent(writes, w.requestTimeout, o)
    ensures old(w.now) <= w.now <= Later(old(w.now), o.deadline)
    ensures !o.allowCreate && !o.allowProbe ==> writes == []
    ensures old(w.troubles) <= w.troubles
    ensures Guarded(cover, records) ==> Unharmed(w, cover, o, old(w.store), w.store)
    ensures Capable(w, cover, records, a, o, old(w.store)) && Calm(w, old(w.troubles), o) ==>
              r.editVerified && r.failures == report.failures
  {
    r, writes, log := CheckRecords(w, cover, p, records, a, o, report);
    r := Finalize(r, p);
    ReadOnlyWritesNothing(writes, w.requestTimeout, o);
  }

  lemma ReadOnlyWritesNothing(writes: seq<Issued>, timeout: nat, o: Options)
    requires AllPrudent(writes, timeout, o)
    ensures !o.allowCreate && !o.allowProbe ==> writes == []
  {
    if writes != [] {
      PrudentAt(writes, timeout, o, |writes|, 0);
    }
  }

  /**
   * `check`: a check that may write first takes the runtime lock, and gives up without any write
   * when it cannot. It is over within the check timeout.
   */
  method Check(
      w: World, cover: set<Resource>, records: seq<RecordConfig>, allowCreate: bool, allowProbe: bool, locked: bool)
    returns (r: CheckReport, ghost writes: seq<Issued>, ghost log: seq<(ConfiguredZone, string)>,
             ghost addresses: Option<DiscoveredAddresses>)
    requires records != []
    modifies w
    ensures w.journal == old(w.journal) + writes && w.resolutions == old(w.resolutions) + log
    ensures w.now <= old(w.now) + CHECK_TIMEOUT
    ensures r.editVerified <==> EditProved(records, log, writes)
    ensures r.created == CreationCount(writes)
    ensures r.IsSuccess() ==> locked && r.existing + r.creatable + r.created == r.records == |records|
    ensures !locked ==> writes == [] && !r.IsSuccess()
    ensures addresses.None? ==> writes == []
    ensures addresses.Some? ==>
              OfTheirFamilies(addresses.value) && Placed(w, cover, records, addresses.value, log, writes)
    ensures Guarded(cover, records) ==>
              Unharmed(w, cover, Options(allowCreate, allowProbe, old(w.now) + CHECK_TIMEOUT), old(w.store), w.store)
    ensures AllPrudent(writes, w.requestTimeout, Options(allowCreate, allowProbe, old(w.now) + CHECK_TIMEOUT))
  {
    if (allowCreate || allowProbe) && !locked {
      assert ZoneOf(records[0]) in ExpectedZones(records);
      assert !Verified(LastResolved([]), AckedZones([]), ZoneOf(records[0]));
      var failures := [Failure(RuntimeCoordination, Coordination, None)];
      return CheckReport(|records|, false, 0, 0, 0, 0, false, failures), [], [], None;
    }
    r, writes, log, addresses := CheckUntil(w, cover, records, Options(allowCreate, allowProbe, w.now + CHECK_TIMEOUT));
  }
}
