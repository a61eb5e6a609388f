/** The client's zone cache (`src/cloudflare.rs`) against lookups that ask the account every time. */
module ZoneCache {
  import opened Text
  import opened Reports
  import opened Configuration
  import opened Lookup

  /** What the account answers for one zone ID, and the zones it lists. */
  datatype Account = Account(fetch: string -> Result<Zone, ApiError>, zones: seq<Zone>)

  function ExplicitKey(zoneName: string, zoneId: string): string {
    "id:" + Lower(zoneId) + ":" + Lower(zoneName)
  }

  function NameKey(zoneName: string): string {
    "name:" + Lower(zoneName)
  }

  /** The checks on the zone that the account returned for an explicit ID. */
  function Verified(reply: Result<Zone, ApiError>, zoneName: string, zoneId: string): Result<string, ApiError> {
    match reply
    case Err(e) => Err(e)
    case Ok(z) =>
      if !SameText(z.name, zoneName) then Err(ZoneNameMismatch)
      else if !SameText(z.id, zoneId) then Err(ZoneIdMismatch)
      else if !IsActive(z) then Err(ZoneNotActive(z.status))
      else Ok(zoneId)
  }

  /** The lookup without a cache. */
  function Uncached(account: Account, zoneName: string, zoneId: Option<string>): Result<string, ApiError> {
    match zoneId
    case Some(id) => Verified(account.fetch(id), zoneName, id)
    case None => FlatZone(account.zones, zoneName)
  }

  /** The account has this zone under this ID, with this name, and it is active; all in any case. */
  predicate Confirms(reply: Result<Zone, ApiError>, zoneName: string, zoneId: string) {
    && reply.Ok? && SameText(reply.value.name, zoneName) && SameText(reply.value.id, zoneId)
    && SameText(reply.value.status, "active")
  }

  /**
   * Exactly when an explicit ID is accepted, and why it is not: the request's own error, a zone of
   * another name, one of the right name with another ID, or the right zone when it is not active.
   */
  lemma ExplicitExactly(account: Account, zoneName: string, zoneId: string)
    ensures var reply, r := account.fetch(zoneId), Uncached(account, zoneName, Some(zoneId));
            && (r.Ok? <==> Confirms(reply, zoneName, zoneId)) && (r.Ok? ==> r.value == zoneId)
            && (reply.Err? ==> r == Err(reply.error))
            && (reply.Ok? ==>
                  var named, same := SameText(reply.value.name, zoneName), SameText(reply.value.id, zoneId);
                  && (!named <==> r == Err(ZoneNameMismatch))
                  && (named && !same <==> r == Err(ZoneIdMismatch))
                  && (named && same && r.Err? ==> r == Err(ZoneNotActive(reply.value.status))))
  {
  }

  function KeyFor(zoneName: string, zoneId: Option<string>): string {
    match zoneId
    case Some(id) => ExplicitKey(zoneName, id)
    case None => NameKey(zoneName)
  }

  /** Some lookup with this key would now give this zone ID. */
  ghost predicate Justified(account: Account, key: string, value: string) {
    exists zoneName, zoneId :: key == KeyFor(zoneName, zoneId) && Uncached(account, zoneName, zoneId) == Ok(value)
  }

  /** Every entry is a verified, active and (for a name) unique match in the account. */
  ghost predicate Faithful(account: Account, cache: map<string, string>) {
    forall key :: key in cache ==> Justified(account, key, cache[key])
  }

  // ----- Keys -----

  /** A lookup that no other kind of lookup can be confused with. */
  predicate Plain(zoneName: string, zoneId: Option<string>) {
    zoneId.Some? ==> ':' !in zoneName && ':' !in zoneId.value
  }

  /** The two lookups are of one kind, and differ in case at most. */
  predicate SameLookup(n: string, i: Option<string>, n': string, i': Option<string>) {
    && SameText(n, n') && (i.Some? <==> i'.Some?)
    && (i.Some? && i'.Some? ==> SameText(i.value, i'.value))
  }

  lemma LowerKeepsColons(s: string)
    ensures ':' in Lower(s) <==> ':' in s
  {
    forall i | 0 <= i < |s|
      ensures Lower(s)[i] == ':' <==> s[i] == ':'
    {
    }
    if ':' in s {
      var i :| 0 <= i < |s| && s[i] == ':';
      assert Lower(s)[i] == ':';
    }
  }

  /** Text with one colon splits in one way. */
  lemma OneColonSplitsOnce(a: string, b: string, c: string, d: string)
    requires ':' !in a && ':' !in b && a + ":" + b == c + ":" + d
    ensures a == c && b == d
  {
    var s := a + ":" + b;
    assert s[|c|] == ':';
    assert forall i :: 0 <= i < |a| ==> s[i] == a[i];
    assert forall i :: 0 <= i < |b| ==> s[|a| + 1 + i] == b[i];
    assert forall i :: |a| < i < |s| ==> s[i] in b;
    assert a == s[..|a|] && c == s[..|c|];
    assert b == s[|a| + 1..] && d == s[|c| + 1..];
  }

  /** Explicit keys without further colons coincide only for spellings of one lookup. */
  lemma PlainExplicitKeys(n: string, i: string, n': string, i': string)
    requires ':' !in n && ':' !in i
    ensures ExplicitKey(n, i) == ExplicitKey(n', i') <==> SameText(n, n') && SameText(i, i')
  {
    LowerKeepsColons(n);
    LowerKeepsColons(i);
    var k, k' := ExplicitKey(n, i), ExplicitKey(n', i');
    if k == k' {
      assert k[3..] == Lower(i) + ":" + Lower(n);
      assert k'[3..] == Lower(i') + ":" + Lower(n');
      OneColonSplitsOnce(Lower(i), Lower(n), Lower(i'), Lower(n'));
    }
  }

  lemma NameKeys(n: string, n': string)
    ensures NameKey(n) == NameKey(n') <==> SameText(n, n')
  {
    assert NameKey(n)[5..] == Lower(n) && NameKey(n')[5..] == Lower(n');
  }

  /** Explicit-ID keys and name keys never collide, with or without colons. */
  lemma KindsOfKeyNeverCollide(zoneName: string, zoneId: string, other: string)
    ensures ExplicitKey(zoneName, zoneId) != NameKey(other)
  {
    assert ExplicitKey(zoneName, zoneId)[0] == 'i' && NameKey(other)[0] == 'n';
  }

  /**
   * A lookup by name, or one whose ID and name hold no colon, shares its key with exactly the
   * lookups of the same form whose ID and name differ from it in case only, whatever those contain.
   */
  lemma PlainKeysAreInjective(n: string, i: Option<string>, n': string, i': Option<string>)
    requires Plain(n, i)
    ensures KeyFor(n, i) == KeyFor(n', i') <==> SameLookup(n, i, n', i')
  {
    match (i, i')
    case (Some(id), Some(id')) => PlainExplicitKeys(n, id, n', id');
    case (None, None) => NameKeys(n, n');
    case (Some(id), None) => KindsOfKeyNeverCollide(n, id, n');
    case (None, Some(id')) => KindsOfKeyNeverCollide(n', id', n);
  }

  lemma LowerJoins(a: string, b: string)
    ensures Lower(a + ":" + b) == Lower(a) + ":" + Lower(b)
  {
  }

  /** It does not show in a key on which side of the cut a piece between two colons was. */
  lemma CutMoves(a: string, b: string, c: string)
    ensures ExplicitKey(c, a + ":" + b) == ExplicitKey(b + ":" + c, a)
  {
    LowerJoins(a, b);
    LowerJoins(b, c);
    var x, y, z := Lower(a), Lower(b), Lower(c);
    assert "id:" + (x + ":" + y) + ":" + z == "id:" + x + ":" + (y + ":" + z);
  }

  /** A colon in the ID or the name can be taken for the one between them. */
  lemma OtherCut(n: string, i: string) returns (n': string, i': string)
    requires !Plain(n, Some(i))
    ensures ExplicitKey(n', i') == ExplicitKey(n, i) && |i'| != |i|
  {
    if ':' in i {
      var k :| 0 <= k < |i| && i[k] == ':';
      assert i == i[..k] + ":" + i[k + 1..];
      CutMoves(i[..k], i[k + 1..], n);
      n', i' := i[k + 1..] + ":" + n, i[..k];
    } else {
      var k :| 0 <= k < |n| && n[k] == ':';
      assert n == n[..k] + ":" + n[k + 1..];
      CutMoves(i, n[..k], n[k + 1..]);
      n', i' := n[k + 1..], i + ":" + n[..k];
    }
  }

  /** A lookup shares its key with its own spellings only, exactly when it is plain. */
  lemma OwnSpellingsExactly(n: string, i: Option<string>)
    ensures (forall n', i' :: KeyFor(n, i) == KeyFor(n', i') ==> SameLookup(n, i, n', i')) <==> Plain(n, i)
  {
    if Plain(n, i) {
      forall n', i' | KeyFor(n, i) == KeyFor(n', i')
        ensures SameLookup(n, i, n', i')
      {
        PlainKeysAreInjective(n, i, n', i');
      }
    } else {
      var n', i' := OtherCut(n, i.value);
      assert |Lower(i')| != |Lower(i.value)|;
      assert KeyFor(n, i) == KeyFor(n', Some(i')) && !SameLookup(n, i, n', Some(i'));
    }
  }

  /** With a colon in the ID, two different zones can share a key. */
  lemma ColonCollision()
    ensures ExplicitKey("c", "a:b") == ExplicitKey("b:c", "a")
    ensures !SameText("a:b", "a")
  {
    assert Lower("a:b") == "a:b" && Lower("b:c") == "b:c" && Lower("a") == "a" && Lower("c") == "c";
    assert ExplicitKey("c", "a:b") == "id:a:b:c";
    assert ExplicitKey("b:c", "a") == "id:a:b:c";
  }

  /** Every validated record is looked up with a plain key and a lower-case ID. */
  lemma ValidRecordsArePlain(r: RecordConfig)
    requires ValidRecord(r)
    ensures Plain(r.zone, r.zoneId)
    ensures r.zoneId.Some? ==> Lower(r.zoneId.value) == r.zoneId.value
  {
    DnsNameExcludes(r.zone, false, ':');
    if r.zoneId.Some? {
      LowerIdempotent(Trim(r.zoneId.value));
    }
  }

  // ----- Agreement -----

  /** The account does not tell zone IDs apart by case. */
  ghost predicate IgnoresCase(account: Account) {
    forall a, b :: SameText(a, b) ==> account.fetch(a) == account.fetch(b)
  }

  lemma {:induction false} NameCaseIsIgnored(zones: seq<Zone>, a: string, b: string, c: Class)
    requires SameText(a, b)
    ensures Select(zones, ZoneKind(a), c) == Select(zones, ZoneKind(b), c)
  {
    if zones != [] {
      NameCaseIsIgnored(zones[..|zones| - 1], a, b, c);
    }
  }

  /** A justified entry is what a plain lookup would find, up to the case of an explicit ID. */
  lemma EntryAgrees(account: Account, zoneName: string, zoneId: Option<string>, value: string)
    requires Plain(zoneName, zoneId) && Justified(account, KeyFor(zoneName, zoneId), value)
    ensures zoneId.None? ==> Uncached(account, zoneName, zoneId) == Ok(value)
    ensures zoneId.Some? ==> SameText(value, zoneId.value)
    ensures zoneId == Some(value) || (zoneId.Some? && IgnoresCase(account)) ==>
              Uncached(account, zoneName, zoneId) == Ok(zoneId.value)
  {
    var n', i' :| KeyFor(zoneName, zoneId) == KeyFor(n', i') && Uncached(account, n', i') == Ok(value);
    PlainKeysAreInjective(zoneName, zoneId, n', i');
    NameCaseIsIgnored(account.zones, zoneName, n', Hit);
    NameCaseIsIgnored(account.zones, zoneName, n', Unusable);
  }

  /** What a justified entry stands for: a confirmed zone, or the only active one of the name. */
  lemma EntryIsConfirmed(account: Account, zoneName: string, zoneId: Option<string>, value: string)
    requires Plain(zoneName, zoneId) && Justified(account, KeyFor(zoneName, zoneId), value)
    ensures zoneId.Some? ==> SameText(value, zoneId.value) && Confirms(account.fetch(value), zoneName, value)
    ensures zoneId.None? ==> exists i: nat :: OnlyActiveAt(account.zones, zoneName, i) && account.zones[i].id == value
  {
    var n', i' :| KeyFor(zoneName, zoneId) == KeyFor(n', i') && Uncached(account, n', i') == Ok(value);
    PlainKeysAreInjective(zoneName, zoneId, n', i');
    match zoneId {
      case Some(_) =>
        ExplicitExactly(account, n', i'.value);
      case None =>
        EntryAgrees(account, zoneName, zoneId, value);
        FlatZoneExactly(account.zones, zoneName);
        var i: nat :| OnlyActiveAt(account.zones, zoneName, i);
    }
  }

  // ----- Exact agreement for canonical IDs -----

  /** A lookup as every validated record makes it: no colons with an ID, and the ID in lower case. */
  predicate Canonical(zoneName: string, zoneId: Option<string>) {
    Plain(zoneName, zoneId) && (zoneId.Some? ==> Lower(zoneId.value) == zoneId.value)
  }

  /** Every canonical explicit key that is cached maps to the ID it was made from. */
  ghost predicate Spelled(cache: map<string, string>) {
    forall n, i :: Canonical(n, Some(i)) && ExplicitKey(n, i) in cache ==> cache[ExplicitKey(n, i)] == i
  }

  /** Caching a canonical lookup keeps canonical keys mapped to their own IDs. */
  lemma SpelledGrows(cache: map<string, string>, zoneName: string, zoneId: Option<string>, value: string)
    requires Spelled(cache) && Canonical(zoneName, zoneId) && (zoneId.Some? ==> value == zoneId.value)
    ensures Spelled(cache[KeyFor(zoneName, zoneId) := value])
  {
    var key := KeyFor(zoneName, zoneId);
    forall n, i | Canonical(n, Some(i)) && ExplicitKey(n, i) in cache[key := value]
      ensures cache[key := value][ExplicitKey(n, i)] == i
    {
      assert ExplicitKey(n, i) == KeyFor(n, Some(i));
      if key == ExplicitKey(n, i) {
        PlainKeysAreInjective(n, Some(i), zoneName, zoneId);
      } else {
        assert ExplicitKey(n, i) in cache;
      }
    }
  }

  /** A cached canonical lookup is exactly what the account would answer. */
  lemma CanonicalEntryAgrees(account: Account, cache: map<string, string>, zoneName: string, zoneId: Option<string>)
    requires Faithful(account, cache) && Spelled(cache) && Canonical(zoneName, zoneId)
    requires KeyFor(zoneName, zoneId) in cache
    ensures Uncached(account, zoneName, zoneId) == Ok(cache[KeyFor(zoneName, zoneId)])
  {
    EntryAgrees(account, zoneName, zoneId, cache[KeyFor(zoneName, zoneId)]);
    if zoneId.Some? {
      assert ExplicitKey(zoneName, zoneId.value) in cache;
    }
  }

  // ----- Deletion of a zone -----

  function Without(zones: seq<Zone>, gone: string): seq<Zone> {
    if zones == [] then []
    else
      var last := zones[|zones| - 1];
      Without(zones[..|zones| - 1], gone) + if SameText(last.id, gone) then [] else [last]
  }

  /** The account once the zone with ID `gone` has been deleted. */
  function Deleted(account: Account, gone: string): Account {
    Account(
      (id: string) => if SameText(id, gone) then Err(Status(404, None)) else account.fetch(id),
      Without(account.zones, gone))
  }

  lemma DeletedIsNotFound(account: Account, gone: string)
    ensures Deleted(account, gone).fetch(gone) == Err(Status(404, None))
  {
    assert SameText(gone, gone);
  }

  lemma SelectSnoc(zones: seq<Zone>, z: Zone, kind: Zone -> Class, c: Class)
    ensures Select(zones + [z], kind, c) ==
            if kind(z) == c then Select(zones, kind, c) + [z] else Select(zones, kind, c)
  {
    assert (zones + [z])[..|zones|] == zones;
  }

  lemma WithoutSnoc(zones: seq<Zone>, z: Zone, gone: string)
    ensures Without(zones + [z], gone) ==
            if SameText(z.id, gone) then Without(zones, gone) else Without(zones, gone) + [z]
  {
    assert (zones + [z])[..|zones|] == zones;
  }

  lemma {:induction false} SelectWithout(zones: seq<Zone>, gone: string, kind: Zone -> Class, c: Class)
    ensures Select(Without(zones, gone), kind, c) == Without(Select(zones, kind, c), gone)
  {
    if zones != [] {
      var rest, last := zones[..|zones| - 1], zones[|zones| - 1];
      SelectWithout(rest, gone, kind, c);
      assert zones == rest + [last];
      SelectSnoc(rest, last, kind, c);
      WithoutSnoc(rest, last, gone);
      if kind(last) == c {
        WithoutSnoc(Select(rest, kind, c), last, gone);
      }
      if !SameText(last.id, gone) {
        SelectSnoc(Without(rest, gone), last, kind, c);
      }
    }
  }

  lemma OthersKeepTheirName(zones: seq<Zone>, gone: string, zoneName: string)
    requires FlatZone(zones, zoneName).Ok? && !SameText(FlatZone(zones, zoneName).value, gone)
    ensures FlatZone(Without(zones, gone), zoneName) == FlatZone(zones, zoneName)
  {
    var hits := Select(zones, ZoneKind(zoneName), Hit);
    assert |hits| == 1 && hits[..0] == [];
    assert Without(hits, gone) == [] + [hits[0]];
    SelectWithout(zones, gone, ZoneKind(zoneName), Hit);
  }

  function Evicted(cache: map<string, string>, zoneId: string): map<string, string> {
    map key | key in cache && !SameText(cache[key], zoneId) :: cache[key]
  }

  /**
   * When a zone is deleted, the eviction that follows the first 404 on its ID makes the cache
   * agree with the account again: no other entry has to go, and no stale one is left.
   */
  lemma EvictionFollowsDeletion(account: Account, cache: map<string, string>, gone: string)
    requires Faithful(account, cache)
    ensures Faithful(Deleted(account, gone), Evicted(cache, gone))
  {
    var smaller := Evicted(cache, gone);
    forall key | key in smaller
      ensures Justified(Deleted(account, gone), key, smaller[key])
    {
      assert Justified(account, key, cache[key]);
      var n, i :| key == KeyFor(n, i) && Uncached(account, n, i) == Ok(cache[key]);
      if i.None? {
        OthersKeepTheirName(account.zones, gone, n);
      }
      assert Uncached(Deleted(account, gone), n, i) == Ok(cache[key]);
    }
  }

  /** Without the eviction the cache would be wrong about the deleted zone, and about no other. */
  lemma StaleExactlyWhenGone(account: Account, key: string, value: string, gone: string)
    requires Justified(account, key, value)
    ensures Justified(Deleted(account, gone), key, value) <==> !SameText(value, gone)
  {
    if !SameText(value, gone) {
      var cache := map[key := value];
      EvictionFollowsDeletion(account, cache, gone);
      assert key in Evicted(cache, gone);
    } else if Justified(Deleted(account, gone), key, value) {
      var n, i :| key == KeyFor(n, i) && Uncached(Deleted(account, gone), n, i) == Ok(value);
      if i.None? {
        FlatZoneIsUniqueActive(Without(account.zones, gone), n);
        WithoutIsGone(account.zones, gone);
      }
    }
  }

  lemma {:induction false} WithoutIsGone(zones: seq<Zone>, gone: string)
    ensures forall i :: 0 <= i < |Without(zones, gone)| ==> !SameText(Without(zones, gone)[i].id, gone)
  {
    if zones != [] {
      WithoutIsGone(zones[..|zones| - 1], gone);
    }
  }

  // ----- The client -----

  class Client {
    var cache: map<string, string>

    constructor ()
      ensures cache == map[]
    {
      cache := map[];
    }

    /** What is cached is answered; otherwise the account is asked, and a verified ID is cached. */
    method ResolveExplicit(account: Account, zoneName: string, zoneId: string) returns (r: Result<string, ApiError>)
      modifies this
      ensures var key := ExplicitKey(zoneName, zoneId);
              if key in old(cache) then r == Ok(old(cache)[key]) && cache == old(cache)
              else
                && r == Uncached(account, zoneName, Some(zoneId))
                && cache == if r.Ok? then old(cache)[key := r.value] else old(cache)
      ensures ExplicitKey(zoneName, zoneId) !in old(cache) ==>
                (r.Ok? <==> Confirms(account.fetch(zoneId), zoneName, zoneId))
      ensures old(Spelled(cache)) && Canonical(zoneName, Some(zoneId)) ==> Spelled(cache)
      ensures old(Faithful(account, cache)) ==>
                && Faithful(account, cache)
                && (old(Spelled(cache)) && Canonical(zoneName, Some(zoneId)) ==>
                      r == Uncached(account, zoneName, Some(zoneId)))
                && (Plain(zoneName, Some(zoneId)) && r.Ok? ==> SameText(r.value, zoneId))
                && (Plain(zoneName, Some(zoneId)) && (r == Ok(zoneId) || IgnoresCase(account)) ==>
                      Uncached(account, zoneName, Some(zoneId)) == if r.Ok? then Ok(zoneId) else r)
    {
      var key := ExplicitKey(zoneName, zoneId);
      assert key == KeyFor(zoneName, Some(zoneId));
      if key in cache {
        if Faithful(account, cache) && Plain(zoneName, Some(zoneId)) {
          EntryAgrees(account, zoneName, Some(zoneId), cache[key]);
          if Spelled(cache) && Canonical(zoneName, Some(zoneId)) {
            CanonicalEntryAgrees(account, cache, zoneName, Some(zoneId));
          }
        }
        return Ok(cache[key]);
      }
      r := Verified(account.fetch(zoneId), zoneName, zoneId);
      ExplicitExactly(account, zoneName, zoneId);
      if r.Ok? {
        assert Uncached(account, zoneName, Some(zoneId)) == r;
        if Spelled(cache) && Canonical(zoneName, Some(zoneId)) {
          SpelledGrows(cache, zoneName, Some(zoneId), r.value);
        }
        cache := cache[key := r.value];
      }
    }

    method ResolveNamed(account: Account, server: Server<Zone>, zoneName: string, ghost reports: bool)
      returns (r: Result<string, ApiError>)
      requires ServesOrFails(server, account.zones, ZONE_PAGE_SIZE, reports)
      modifies this
      ensures var key := NameKey(zoneName);
              if key in old(cache) then r == Ok(old(cache)[key]) && cache == old(cache)
              else
                && (r.Ok? ==> r == Uncached(account, zoneName, None))
                && ((Serves(server, account.zones, ZONE_PAGE_SIZE, reports)
                     && Fits(account.zones, ZONE_PAGE_SIZE, reports)) ==> r == Uncached(account, zoneName, None))
                && cache == if r.Ok? then old(cache)[key := r.value] else old(cache)
      ensures NameKey(zoneName) !in old(cache) && r.Ok? ==>
                exists i: nat :: OnlyActiveAt(account.zones, zoneName, i) && account.zones[i].id == r.value
      ensures old(Spelled(cache)) ==> Spelled(cache)
      ensures old(Faithful(account, cache)) ==>
                Faithful(account, cache) && (r.Ok? ==> r == Uncached(account, zoneName, None))
    {
      var key := NameKey(zoneName);
      assert key == KeyFor(zoneName, None);
      if key in cache {
        if Faithful(account, cache) {
          EntryAgrees(account, zoneName, None, cache[key]);
        }
        return Ok(cache[key]);
      }
      var requests;
      r, requests := FindZone(server, zoneName, account.zones, reports);
      FlatZoneExactly(account.zones, zoneName);
      if r.Ok? {
        assert Uncached(account, zoneName, None) == r;
        if Spelled(cache) {
          SpelledGrows(cache, zoneName, None, r.value);
        }
        cache := cache[key := r.value];
      }
    }

    /**
     * `resolve_zone_id`, for a lookup as a validated record makes it, when deletions may have gone
     * unnoticed: the answer is the uncached one exactly when it is not a hit on such an ID.
     */
    method Resolve(
        account: Account, server: Server<Zone>, zoneName: string, zoneId: Option<string>,
        ghost stale: set<string>, ghost reports: bool)
      returns (r: Result<string, ApiError>)
      requires FaithfulBut(account, cache, stale) && Absent(account, stale) && Spelled(cache)
      requires Canonical(zoneName, zoneId)
      requires Serves(server, account.zones, ZONE_PAGE_SIZE, reports) && Fits(account.zones, ZONE_PAGE_SIZE, reports)
      modifies this
      ensures FaithfulBut(account, cache, stale) && Spelled(cache)
      ensures var key := KeyFor(zoneName, zoneId);
              && (key in old(cache) ==> r == Ok(old(cache)[key]))
              && (r == Uncached(account, zoneName, zoneId) <==> !(key in old(cache) && Lower(old(cache)[key]) in stale))
    {
      var key := KeyFor(zoneName, zoneId);
      if key in cache {
        HitAgreesExactly(account, cache, stale, zoneName, zoneId);
      }
      if zoneId.Some? {
        r := ResolveExplicit(account, zoneName, zoneId.value);
      } else {
        r := ResolveNamed(account, server, zoneName, reports);
      }
      assert key !in old(cache) && r.Ok? ==> Justified(account, key, r.value);
    }

    method Invalidate(zoneId: string, error: ApiError)
      modifies this
      ensures IsNotFound(error) ==> forall key :: key in cache ==> !SameText(cache[key], zoneId)
      ensures IsNotFound(error) ==> cache.Keys == set key | key in old(cache) && !SameText(old(cache)[key], zoneId)
      ensures !IsNotFound(error) ==> cache == old(cache)
      ensures forall key :: key in cache ==> key in old(cache) && cache[key] == old(cache)[key]
      ensures cache == if IsNotFound(error) then Evicted(old(cache), zoneId) else old(cache)
    {
      if IsNotFound(error) {
        cache := Evicted(cache, zoneId);
      }
    }

    /**
     * Deletion observed: a 404 on the deleted ID leaves a cache that agrees with the account as it
     * now is, so a lookup of the deleted zone asks the account again and reports its absence.
     */
    method ForgetDeleted(account: Account, gone: string, zoneName: string) returns (r: Result<string, ApiError>)
      requires Faithful(account, cache) && Plain(zoneName, Some(gone))
      modifies this
      ensures Faithful(Deleted(account, gone), cache)
      ensures r == Err(Status(404, None))
    {
      EvictionFollowsDeletion(account, cache, gone);
      Invalidate(gone, Status(404, None));
      DeletedIsNotFound(account, gone);
      r := ResolveExplicit(Deleted(account, gone), zoneName, gone);
    }
  }

  /**
   * The one way the cache shows: an ID first verified in one spelling is answered in that spelling
   * later. The answers are the same exactly when the spellings are.
   */
  method ResolveTwice(account: Account, zoneName: string, first: string, second: string)
    returns (a: Result<string, ApiError>, b: Result<string, ApiError>)
    requires IgnoresCase(account) && Plain(zoneName, Some(first)) && SameText(first, second)
    ensures a == Uncached(account, zoneName, Some(first))
    ensures a.Ok? ==> (b == Uncached(account, zoneName, Some(second)) <==> first == second)
    ensures a.Err? ==> b == Uncached(account, zoneName, Some(second))
  {
    var client := new Client();
    a := client.ResolveExplicit(account, zoneName, first);
    b := client.ResolveExplicit(account, zoneName, second);
    assert account.fetch(first) == account.fetch(second);
  }

  // ----- Whole sessions -----

  /** A validated record is looked up, a request fails for a zone, or a zone is deleted behind the client's back. */
  datatype Event = Resolve(record: RecordConfig) | Failed(zoneId: string, error: ApiError) | Delete(zoneId: string)

  /** The account after these events. */
  function AccountAfter(account: Account, events: seq<Event>): Account {
    if events == [] then account
    else
      var before := AccountAfter(account, events[..|events| - 1]);
      var last := events[|events| - 1];
      if last.Delete? then Deleted(before, last.zoneId) else before
  }

  /** The IDs, in lower case, that were deleted and for which no request has met a 404 since. */
  function Unnoticed(events: seq<Event>): set<string> {
    if events == [] then {}
    else
      var before := Unnoticed(events[..|events| - 1]);
      match events[|events| - 1]
      case Resolve(_) => before
      case Failed(zoneId, error) => if IsNotFound(error) then before - {Lower(zoneId)} else before
      case Delete(zoneId) => before + {Lower(zoneId)}
  }

  predicate ValidEvent(e: Event) {
    e.Resolve? ==> ValidRecord(e.record)
  }

  predicate AllValid(events: seq<Event>) {
    forall i {:trigger ValidEvent(events[i])} :: 0 <= i < |events| ==> ValidEvent(events[i])
  }

  /** What the lookup of this record would find in the account when nothing is cached. */
  function Asked(account: Account, e: Event): Option<Result<string, ApiError>> {
    if e.Resolve? then Some(Uncached(account, e.record.zone, e.record.zoneId)) else None
  }

  /** Every entry is what the account would answer, or an ID whose deletion went unnoticed. */
  ghost predicate FaithfulBut(account: Account, cache: map<string, string>, stale: set<string>) {
    forall key :: key in cache ==> Justified(account, key, cache[key]) || Lower(cache[key]) in stale
  }

  /** The account knows none of these IDs any more. */
  ghost predicate Absent(account: Account, stale: set<string>) {
    && (forall id :: Lower(id) in stale ==> account.fetch(id).Err?)
    && (forall i :: 0 <= i < |account.zones| ==> Lower(account.zones[i].id) !in stale)
  }

  /** No lookup in the account gives an ID that it does not know. */
  lemma AbsentIsNotAnswered(account: Account, stale: set<string>, zoneName: string, zoneId: Option<string>)
    requires Absent(account, stale) && Uncached(account, zoneName, zoneId).Ok?
    ensures Lower(Uncached(account, zoneName, zoneId).value) !in stale
  {
    if zoneId.None? {
      FlatZoneIsUniqueActive(account.zones, zoneName);
    }
  }

  /** The lookup of this event is answered from the cache with an ID whose deletion went unnoticed. */
  predicate StaleHit(cache: map<string, string>, stale: set<string>, e: Event) {
    && e.Resolve?
    && var key := KeyFor(e.record.zone, e.record.zoneId); key in cache && Lower(cache[key]) in stale
  }

  /** A hit that is not stale is exactly what the account would answer, and a stale one never is. */
  lemma HitAgreesExactly(
      account: Account, cache: map<string, string>, stale: set<string>, zoneName: string, zoneId: Option<string>)
    requires FaithfulBut(account, cache, stale) && Spelled(cache) && Absent(account, stale)
    requires Canonical(zoneName, zoneId) && KeyFor(zoneName, zoneId) in cache
    ensures var value := cache[KeyFor(zoneName, zoneId)];
            Uncached(account, zoneName, zoneId) == Ok(value) <==> Lower(value) !in stale
  {
    var key := KeyFor(zoneName, zoneId);
    if Lower(cache[key]) !in stale {
      var one := map[key := cache[key]];
      assert Faithful(account, one);
      assert Spelled(one);
      CanonicalEntryAgrees(account, one, zoneName, zoneId);
    } else if Uncached(account, zoneName, zoneId).Ok? {
      AbsentIsNotAnswered(account, stale, zoneName, zoneId);
    }
  }

  /** A deletion makes stale exactly the entries of its ID, and the account forgets it. */
  lemma DeletionGoesUnnoticed(account: Account, cache: map<string, string>, stale: set<string>, gone: string)
    requires FaithfulBut(account, cache, stale) && Absent(account, stale)
    ensures FaithfulBut(Deleted(account, gone), cache, stale + {Lower(gone)})
    ensures Absent(Deleted(account, gone), stale + {Lower(gone)})
  {
    forall key | key in cache && Lower(cache[key]) !in stale + {Lower(gone)}
      ensures Justified(Deleted(account, gone), key, cache[key])
    {
      StaleExactlyWhenGone(account, key, cache[key], gone);
    }
    WithoutIsGone(account.zones, gone);
    WithoutIsPart(account.zones, gone);
    var after := Deleted(account, gone);
    forall id | Lower(id) in stale + {Lower(gone)}
      ensures after.fetch(id).Err?
    {
      assert SameText(id, gone) <==> Lower(id) == Lower(gone);
    }
  }

  lemma {:induction false} WithoutIsPart(zones: seq<Zone>, gone: string)
    ensures |Without(zones, gone)| <= |zones|
    ensures forall i :: 0 <= i < |Without(zones, gone)| ==> Without(zones, gone)[i] in zones
  {
    if zones != [] {
      WithoutIsPart(zones[..|zones| - 1], gone);
    }
  }

  /** The eviction after a 404 leaves nothing of that ID behind. */
  lemma NoticeClears(account: Account, cache: map<string, string>, stale: set<string>, zoneId: string)
    requires FaithfulBut(account, cache, stale) && Absent(account, stale) && Spelled(cache)
    ensures FaithfulBut(account, Evicted(cache, zoneId), stale - {Lower(zoneId)})
    ensures Absent(account, stale - {Lower(zoneId)}) && Spelled(Evicted(cache, zoneId))
  {
  }

  /** One event, handled with the cache. The answer is the uncached one exactly when the hit is not stale. */
  method HandleEvent(
      client: Client, account: Account, server: Server<Zone>, e: Event, ghost stale: set<string>, ghost reports: bool)
    returns (answer: Option<Result<string, ApiError>>)
    requires FaithfulBut(account, client.cache, stale) && Absent(account, stale)
    requires Spelled(client.cache) && ValidEvent(e)
    requires Serves(server, account.zones, ZONE_PAGE_SIZE, reports) && Fits(account.zones, ZONE_PAGE_SIZE, reports)
    modifies client
    ensures answer == Asked(account, e) <==> !StaleHit(old(client.cache), stale, e)
    ensures StaleHit(old(client.cache), stale, e) ==>
              answer == Some(Ok(old(client.cache)[KeyFor(e.record.zone, e.record.zoneId)]))
    ensures var after, left := AccountAfter(account, [e]), StaleAfter(stale, e);
            FaithfulBut(after, client.cache, left) && Absent(after, left) && Spelled(client.cache)
  {
    assert [e][..0] == [];
    match e {
      case Resolve(record) =>
        ValidRecordsArePlain(record);
        var r := client.Resolve(account, server, record.zone, record.zoneId, stale, reports);
        answer := Some(r);
      case Failed(zoneId, error) =>
        if IsNotFound(error) {
          NoticeClears(account, client.cache, stale, zoneId);
        }
        client.Invalidate(zoneId, error);
        answer := None;
      case Delete(zoneId) =>
        DeletionGoesUnnoticed(account, client.cache, stale, zoneId);
        answer := None;
    }
  }

  /** The unnoticed IDs after one more event. */
  function StaleAfter(stale: set<string>, e: Event): set<string> {
    match e
    case Resolve(_) => stale
    case Failed(zoneId, error) => if IsNotFound(error) then stale - {Lower(zoneId)} else stale
    case Delete(zoneId) => stale + {Lower(zoneId)}
  }

  /** The answer is one of the IDs that were deleted without notice. */
  predicate StaleAnswer(answer: Option<Result<string, ApiError>>, stale: set<string>) {
    answer.Some? && answer.value.Ok? && Lower(answer.value.value) in stale
  }

  /** Each of the first `k` answers is the uncached one of its moment, exactly when it is not stale. */
  ghost predicate ExactUpTo(
    account: Account, events: seq<Event>, answers: seq<Option<Result<string, ApiError>>>, k: nat)
    requires k <= |events| && k <= |answers|
  {
    k == 0 || (
      && ExactUpTo(account, events, answers, k - 1)
      && (answers[k - 1] == Asked(AccountAfter(account, events[..k - 1]), events[k - 1]) <==>
          !StaleAnswer(answers[k - 1], Unnoticed(events[..k - 1]))))
  }

  lemma {:induction false} ExactStays(
      account: Account, events: seq<Event>, answers: seq<Option<Result<string, ApiError>>>,
      answer: Option<Result<string, ApiError>>, k: nat)
    requires k <= |events| && k <= |answers| && ExactUpTo(account, events, answers, k)
    ensures ExactUpTo(account, events, answers + [answer], k)
  {
    if k > 0 {
      ExactStays(account, events, answers, answer, k - 1);
    }
  }

  /** Read off for one answer; where every deletion so far was noticed, it is exact. */
  lemma {:induction false} ExactAt(
      account: Account, events: seq<Event>, answers: seq<Option<Result<string, ApiError>>>, k: nat, j: nat)
    requires j < k <= |events| && k <= |answers| && ExactUpTo(account, events, answers, k)
    ensures answers[j] == Asked(AccountAfter(account, events[..j]), events[j]) <==>
            !StaleAnswer(answers[j], Unnoticed(events[..j]))
    ensures Unnoticed(events[..j]) == {} ==> answers[j] == Asked(AccountAfter(account, events[..j]), events[j])
  {
    if j < k - 1 {
      ExactAt(account, events, answers, k - 1, j);
    }
  }

  lemma NextAccount(account: Account, events: seq<Event>, k: nat, reports: bool)
    requires k < |events|
    ensures var before := AccountAfter(account, events[..k]);
            var after := AccountAfter(before, [events[k]]);
            && after == AccountAfter(account, events[..k + 1])
            && (Fits(before.zones, ZONE_PAGE_SIZE, reports) ==> Fits(after.zones, ZONE_PAGE_SIZE, reports))
    ensures Unnoticed(events[..k + 1]) == StaleAfter(Unnoticed(events[..k]), events[k])
  {
    var e := events[k];
    assert [e][..0] == [] && events[..k + 1][..k] == events[..k];
    if e.Delete? {
      WithoutIsPart(AccountAfter(account, events[..k]).zones, e.zoneId);
    }
  }

  /** A stale hit shows in the answer, and nothing else looks like one. */
  lemma StaleShows(
      account: Account, cache: map<string, string>, stale: set<string>, e: Event,
      answer: Option<Result<string, ApiError>>)
    requires Absent(account, stale)
    requires answer == Asked(account, e) <==> !StaleHit(cache, stale, e)
    requires StaleHit(cache, stale, e) ==> answer == Some(Ok(cache[KeyFor(e.record.zone, e.record.zoneId)]))
    ensures answer == Asked(account, e) <==> !StaleAnswer(answer, stale)
  {
    if answer == Asked(account, e) && e.Resolve? && answer.value.Ok? {
      AbsentIsNotAnswered(account, stale, e.record.zone, e.record.zoneId);
    }
  }

  /** One more answer keeps the account of all of them. */
  lemma ExactNext(
      account: Account, events: seq<Event>, answers: seq<Option<Result<string, ApiError>>>,
      cache: map<string, string>, answer: Option<Result<string, ApiError>>)
    requires |answers| < |events| && ExactUpTo(account, events, answers, |answers|)
    requires var k := |answers|;
             var current, stale, e := AccountAfter(account, events[..k]), Unnoticed(events[..k]), events[k];
             && Absent(current, stale) && (answer == Asked(current, e) <==> !StaleHit(cache, stale, e))
             && (StaleHit(cache, stale, e) ==> answer == Some(Ok(cache[KeyFor(e.record.zone, e.record.zoneId)])))
    ensures ExactUpTo(account, events, answers + [answer], |answers| + 1)
  {
    var k := |answers|;
    StaleShows(AccountAfter(account, events[..k]), cache, Unnoticed(events[..k]), events[k], answer);
    ExactStays(account, events, answers, answer, k);
  }

  /**
   * From the empty cache on, through any sequence of lookups of validated records, failed requests
   * and deletions, an answer is exactly what an uncached lookup would give at that moment, except
   * that a zone which was deleted, and for which no request has met a 404 since, may still be
   * answered; then the answer is that zone's ID.
   */
  method Session(account: Account, pages: seq<Zone> -> Server<Zone>, events: seq<Event>, ghost reports: bool)
    returns (answers: seq<Option<Result<string, ApiError>>>)
    requires AllValid(events) && Fits(account.zones, ZONE_PAGE_SIZE, reports)
    requires forall zones :: Serves(pages(zones), zones, ZONE_PAGE_SIZE, reports)
    ensures |answers| == |events|
    ensures ExactUpTo(account, events, answers, |events|)
  {
    var client := new Client();
    var current := account;
    ghost var stale: set<string> := {};
    answers := [];
    var k := 0;
    while k < |events|
      invariant 0 <= k == |answers| <= |events|
      invariant current == AccountAfter(account, events[..k]) && stale == Unnoticed(events[..k])
      invariant FaithfulBut(current, client.cache, stale) && Absent(current, stale) && Spelled(client.cache)
      invariant Fits(current.zones, ZONE_PAGE_SIZE, reports)
      invariant ExactUpTo(account, events, answers, k)
    {
      var e := events[k];
      ghost var cache := client.cache;
      var answer := HandleEvent(client, current, pages(current.zones), e, stale, reports);
      ExactNext(account, events, answers, cache, answer);
      answers := answers + [answer];
      NextAccount(account, events, k, reports);
      current, stale := AccountAfter(current, [e]), StaleAfter(stale, e);
      k := k + 1;
    }
  }

  /**
   * The stale window: a validated record with an explicit ID is looked up, its zone is deleted, and
   * it is looked up again before any request has met a 404. The second lookup is answered although
   * the account would report that the zone is gone.
   */
  method StaleWindow(account: Account, record: RecordConfig)
    returns (a: Result<string, ApiError>, b: Result<string, ApiError>)
    requires ValidRecord(record) && record.zoneId.Some? && Uncached(account, record.zone, record.zoneId).Ok?
    ensures a == b == Ok(record.zoneId.value)
    ensures Uncached(Deleted(account, record.zoneId.value), record.zone, record.zoneId) == Err(Status(404, None))
  {
    var id := record.zoneId.value;
    var client := new Client();
    a := client.ResolveExplicit(account, record.zone, id);
    DeletedIsNotFound(account, id);
    b := client.ResolveExplicit(Deleted(account, id), record.zone, id);
  }

  /** With a colon in the ID, the cache can answer a lookup that the account would refuse. */
  method ColonsMislead(account: Account) returns (a: Result<string, ApiError>, b: Result<string, ApiError>)
    requires account.fetch("a:b") == Ok(Zone("a:b", "c", "active")) && account.fetch("a") == Err(Status(404, None))
    ensures a == Ok("a:b") && b == Ok("a:b")
    ensures Uncached(account, "b:c", Some("a")) == Err(Status(404, None))
  {
    ColonCollision();
    var client := new Client();
    a := client.ResolveExplicit(account, "c", "a:b");
    b := client.ResolveExplicit(account, "b:c", "a");
  }
}
