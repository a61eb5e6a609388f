/** The record store behind the DNS API, and the three writes that Cirrusync sends to it. */
module DnsStore {
  import opened Text
  import opened Configuration
  import opened Reports

  datatype Address = V4(bits: nat) | V6(bits: nat)

  datatype RecordKey = RecordKey(zoneId: string, id: string)

  /** A stored record. Content is kept up to address parsing: `None` is text that is no address. */
  datatype DnsRecord = DnsRecord(rtype: string, name: string, content: Option<Address>, ttl: nat, proxied: bool)

  datatype RecordPayload = RecordPayload(rtype: string, name: string, content: Address, ttl: nat, proxied: bool)

  type Store = map<RecordKey, DnsRecord>

  /** Where a record lives for exact matching, which ignores the case of type and name. */
  datatype Slot = Slot(zoneId: string, rtype: string, name: string)

  function SlotFor(zoneId: string, rtype: string, name: string): Slot {
    Slot(zoneId, Lower(rtype), Lower(name))
  }

  function ConfigSlot(zoneId: string, r: RecordConfig): Slot {
    SlotFor(zoneId, TypeText(r.rtype), r.name)
  }

  function RecordSlot(k: RecordKey, r: DnsRecord): Slot {
    SlotFor(k.zoneId, r.rtype, r.name)
  }

  function Matching(store: Store, s: Slot): set<RecordKey> {
    set k | k in store && RecordSlot(k, store[k]) == s
  }

  /** The part of the store that lives in one slot. */
  function SlotView(store: Store, s: Slot): Store {
    map k | k in store && RecordSlot(k, store[k]) == s :: store[k]
  }

  lemma SameViewSameMatches(a: Store, b: Store, s: Slot)
    requires SlotView(a, s) == SlotView(b, s)
    ensures Matching(a, s) == Matching(b, s)
    ensures forall k :: k in Matching(a, s) ==> k in a && k in b && a[k] == b[k]
  {
    assert Matching(a, s) == SlotView(a, s).Keys;
    assert Matching(b, s) == SlotView(b, s).Keys;
    forall k | k in Matching(a, s)
      ensures k in a && k in b && a[k] == b[k]
    {
      assert SlotView(a, s)[k] == SlotView(b, s)[k];
    }
  }

  function PayloadFor(r: RecordConfig, address: Address): RecordPayload {
    RecordPayload(TypeText(r.rtype), r.name, address, r.ttl, r.proxied)
  }

  function PayloadRecord(p: RecordPayload): DnsRecord {
    DnsRecord(p.rtype, p.name, Some(p.content), p.ttl, p.proxied)
  }

  datatype Mutation =
    | Create(zoneId: string, payload: RecordPayload)
    | Update(key: RecordKey, payload: RecordPayload)
    | Probe(key: RecordKey, seen: DnsRecord)

  function MutationSlot(m: Mutation): Slot {
    match m
    case Create(zoneId, payload) => SlotFor(zoneId, payload.rtype, payload.name)
    case Update(key, payload) => SlotFor(key.zoneId, payload.rtype, payload.name)
    case Probe(key, seen) => RecordSlot(key, seen)
  }

  /** The effect of a served write; a patch of a record that does not exist changes nothing. */
  function Served(store: Store, m: Mutation, newKey: RecordKey): Store {
    match m
    case Create(_, payload) => store[newKey := PayloadRecord(payload)]
    case Update(key, payload) => if key in store then store[key := PayloadRecord(payload)] else store
    case Probe(key, seen) =>
      if key in store then store[key := store[key].(rtype := seen.rtype, name := seen.name, ttl := seen.ttl)]
      else store
  }

  /** The write goes where its sender looked: a new key, or a record that is in the same slot. */
  predicate OnTarget(store: Store, m: Mutation, newKey: RecordKey) {
    match m
    case Create(zoneId, _) => newKey !in store && newKey.zoneId == zoneId
    case Update(key, _) => key in store ==> RecordSlot(key, store[key]) == MutationSlot(m)
    case Probe(key, _) => key in store ==> RecordSlot(key, store[key]) == MutationSlot(m)
  }

  lemma ServedKeepsOtherSlots(store: Store, m: Mutation, newKey: RecordKey, s: Slot)
    requires OnTarget(store, m, newKey) && s != MutationSlot(m)
    ensures SlotView(Served(store, m, newKey), s) == SlotView(store, s)
  {
  }

  lemma ServedMatches(store: Store, m: Mutation, newKey: RecordKey)
    requires OnTarget(store, m, newKey)
    ensures Matching(Served(store, m, newKey), MutationSlot(m))
         == Matching(store, MutationSlot(m)) + (if m.Create? then {newKey} else {})
  {
  }

  /** Exactly one record in the slot, and it carries the desired address, TTL and proxy flag. */
  ghost predicate Converged(store: Store, s: Slot, r: RecordConfig, address: Address) {
    exists k :: Matching(store, s) == {k} && UpToDate(store[k], r, address)
  }

  predicate UpToDate(d: DnsRecord, r: RecordConfig, address: Address) {
    d.content == Some(address) && d.ttl == r.ttl && d.proxied == r.proxied
  }

  /** What a lookup of one slot finds in the store. */
  function FlatLookup(store: Store, s: Slot): Result<Option<(RecordKey, DnsRecord)>, ApiError> {
    var found := Matching(store, s);
    if found == {} then Ok(None)
    else if |found| == 1 then
      SingletonWitness(found);
      var k :| k in store && found == {k};
      Ok(Some((k, store[k])))
    else Err(AmbiguousRecord)
  }

  /** The record under this key is in this zone and has this type and name, both in any case. */
  predicate FitsAt(store: Store, k: RecordKey, zoneId: string, rtype: string, name: string) {
    k in store && k.zoneId == zoneId && SameText(store[k].rtype, rtype) && SameText(store[k].name, name)
  }

  /** The only record of this zone, type and name is the one under this key. */
  ghost predicate OnlyFit(store: Store, k: RecordKey, zoneId: string, rtype: string, name: string) {
    FitsAt(store, k, zoneId, rtype, name) && forall l :: FitsAt(store, l, zoneId, rtype, name) ==> l == k
  }

  /** The matches of a slot are the records that are in its zone and have its type and name. */
  lemma MatchingExactly(store: Store, zoneId: string, rtype: string, name: string)
    ensures forall k :: k in Matching(store, SlotFor(zoneId, rtype, name)) <==> FitsAt(store, k, zoneId, rtype, name)
    ensures forall k :: Matching(store, SlotFor(zoneId, rtype, name)) == {k} <==> OnlyFit(store, k, zoneId, rtype, name)
  {
    var found := Matching(store, SlotFor(zoneId, rtype, name));
    forall k | OnlyFit(store, k, zoneId, rtype, name)
      ensures found == {k}
    {
      assert forall l :: l in found ==> FitsAt(store, l, zoneId, rtype, name);
    }
    forall k | found == {k}
      ensures OnlyFit(store, k, zoneId, rtype, name)
    {
      assert forall l :: FitsAt(store, l, zoneId, rtype, name) ==> l in found;
    }
  }

  /** Exactly what a lookup finds: nothing, the only fitting record, or more than one. */
  lemma FlatLookupExactly(store: Store, zoneId: string, rtype: string, name: string)
    ensures var r := FlatLookup(store, SlotFor(zoneId, rtype, name));
            && (r == Ok(None) <==> forall k :: !FitsAt(store, k, zoneId, rtype, name))
            && (forall k :: OnlyFit(store, k, zoneId, rtype, name) ==> r == Ok(Some((k, store[k]))))
            && (r == Err(AmbiguousRecord) <==>
                exists k, l :: k != l && FitsAt(store, k, zoneId, rtype, name) && FitsAt(store, l, zoneId, rtype, name))
  {
    var found := Matching(store, SlotFor(zoneId, rtype, name));
    MatchingExactly(store, zoneId, rtype, name);
    if |found| == 1 {
      SingletonWitness(found);
    } else if found != {} {
      var k :| k in found;
      assert |found - {k}| == |found| - 1;
      var l :| l in found - {k};
    }
  }

  /** What a cycle owes for a record: the only one of its zone, type and name has these three values. */
  ghost predicate Delivered(store: Store, zoneId: string, r: RecordConfig, address: Address) {
    var rtype := if r.rtype.A? then "A" else "AAAA";
    exists k :: OnlyFit(store, k, zoneId, rtype, r.name)
                && store[k].content == Some(address) && store[k].ttl == r.ttl && store[k].proxied == r.proxied
  }

  lemma ConvergedExactly(store: Store, zoneId: string, r: RecordConfig, address: Address)
    ensures Converged(store, ConfigSlot(zoneId, r), r, address) <==> Delivered(store, zoneId, r, address)
  {
    MatchingExactly(store, zoneId, TypeText(r.rtype), r.name);
  }

  lemma SingletonWitness<T>(s: set<T>)
    requires |s| == 1
    ensures exists k :: s == {k}
    ensures forall k, l :: k in s && l in s ==> k == l
  {
    var k :| k in s;
    assert |s - {k}| == 0;
    assert s == {k};
  }
}
