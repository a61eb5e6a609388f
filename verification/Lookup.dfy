/** Paged lookups of records and zones (`src/cloudflare.rs`) against a scan of one flat list. */
module Lookup {
  import opened Text
  import opened Reports
  import opened DnsStore
  import opened Arithmetic

  const ZONE_PAGE_SIZE := 50
  const RECORD_PAGE_SIZE := 100
  const MAX_PAGES := 100

  datatype Page<T> = Page(items: seq<T>, totalPages: Option<nat>)

  /** How an item bears on the lookup: a match, a match that cannot be used, or neither. */
  datatype Class = Hit | Unusable | Miss

  /** What a scan finds: more than one hit, or the only hit and the first unusable match, if any. */
  datatype Scan<T> = Ambiguous | Seen(hit: Option<T>, unusable: Option<T>)

  // ----- The specification: one flat list -----

  function Select<T>(items: seq<T>, kind: T -> Class, c: Class): seq<T> {
    if items == [] then []
    else Select(items[..|items| - 1], kind, c) + (if kind(items[|items| - 1]) == c then [items[|items| - 1]] else [])
  }

  function First<T>(s: seq<T>): Option<T> {
    if s == [] then None else Some(s[0])
  }

  function FlatScan<T>(items: seq<T>, kind: T -> Class): Scan<T> {
    var hits := Select(items, kind, Hit);
    if |hits| >= 2 then Ambiguous else Seen(First(hits), First(Select(items, kind, Unusable)))
  }

  /** One more item, as the page loops handle it. */
  function Extend<T>(scan: Scan<T>, item: T, kind: T -> Class): Scan<T>
    requires scan.Seen?
  {
    match kind(item)
    case Hit => if scan.hit.Some? then Ambiguous else scan.(hit := Some(item))
    case Unusable => if scan.unusable.Some? then scan else scan.(unusable := Some(item))
    case Miss => scan
  }

  lemma ExtendIsFlat<T>(items: seq<T>, item: T, kind: T -> Class)
    requires FlatScan(items, kind).Seen?
    ensures FlatScan(items + [item], kind) == Extend(FlatScan(items, kind), item, kind)
  {
    assert (items + [item])[..|items|] == items;
  }

  lemma {:induction false} AmbiguousStays<T>(items: seq<T>, more: seq<T>, kind: T -> Class)
    requires FlatScan(items, kind).Ambiguous?
    ensures FlatScan(items + more, kind).Ambiguous?
    decreases |more|
  {
    if more == [] {
      assert items + more == items;
    } else {
      var rest := more[..|more| - 1];
      AmbiguousStays(items, rest, kind);
      assert (items + more)[..|items + more| - 1] == items + rest;
    }
  }

  // ----- Servers -----

  /** Page numbers start at one. A reply may also be a failure. */
  type Server<!T> = nat -> Result<Page<T>, ApiError>

  /** The part of the list on one page; pages beyond the end are empty. */
  function Cut<T>(items: seq<T>, size: nat, page: nat): seq<T>
    requires size > 0 && page > 0
  {
    items[Upto(items, size, page - 1)..Upto(items, size, page)]
  }

  /** How many items the first `pages` pages hold. */
  function Upto<T>(items: seq<T>, size: nat, pages: nat): (n: nat)
    ensures n <= |items|
  {
    if Multiple(size, pages) < |items| then Multiple(size, pages) else |items|
  }

  function PageCount<T>(items: seq<T>, size: nat): nat
    requires size > 0
  {
    (|items| + size - 1) / size
  }

  /** The server serves this list in pages, and always or never reports the true page count. */
  ghost predicate Serves<T>(server: Server<T>, items: seq<T>, size: nat, reports: bool)
    requires size > 0
  {
    forall page: nat {:trigger server(page)} :: page > 0 ==>
      server(page) == Ok(Page(Cut(items, size, page), if reports then Some(PageCount(items, size)) else None))
  }

  /** As above, except that any request may fail. */
  ghost predicate ServesOrFails<T>(server: Server<T>, items: seq<T>, size: nat, reports: bool)
    requires size > 0
  {
    forall page: nat {:trigger server(page)} :: page > 0 ==>
      || server(page).Err?
      || server(page) == Ok(Page(Cut(items, size, page), if reports then Some(PageCount(items, size)) else None))
  }

  ghost predicate RequestError<T>(server: Server<T>, e: ApiError) {
    exists page: nat :: 0 < page <= MAX_PAGES && server(page) == Err(e)
  }

  predicate HasNextPage(page: nat, count: nat, size: nat, totalPages: Option<nat>) {
    match totalPages
    case Some(total) => page < total
    case None => count == size
  }

  /** Whether a request for another page would follow page `page`. */
  predicate Continues<T>(items: seq<T>, size: nat, reports: bool, page: nat)
    requires size > 0 && page > 0
  {
    HasNextPage(page, |Cut(items, size, page)|, size, if reports then Some(PageCount(items, size)) else None)
  }

  /** The list is short enough for the page limit. */
  predicate Fits<T>(items: seq<T>, size: nat, reports: bool) {
    if reports then |items| <= Multiple(size, MAX_PAGES) else |items| < Multiple(size, MAX_PAGES)
  }

  /** The page limit in items: 5000 zones or 10000 records, one less when pages are not counted. */
  lemma RoomOnPages(zones: seq<Zone>, records: seq<(RecordKey, DnsRecord)>)
    ensures Fits(zones, ZONE_PAGE_SIZE, true) <==> |zones| <= 5000
    ensures Fits(zones, ZONE_PAGE_SIZE, false) <==> |zones| < 5000
    ensures Fits(records, RECORD_PAGE_SIZE, true) <==> |records| <= 10000
    ensures Fits(records, RECORD_PAGE_SIZE, false) <==> |records| < 10000
  {
    MultipleIsProduct(ZONE_PAGE_SIZE, MAX_PAGES);
    MultipleIsProduct(RECORD_PAGE_SIZE, MAX_PAGES);
  }

  /** There are more than `page` pages exactly when the first `page` of them have too little room. */
  lemma PageCountLess(n: nat, size: nat, page: nat)
    requires size > 0
    ensures page < (n + size - 1) / size <==> Multiple(size, page) < n
  {
    TimesIsDivision(n + size - 1, size);
    RoundedUp(n, size, page);
  }

  lemma ContinuesMeans<T>(items: seq<T>, size: nat, reports: bool, page: nat)
    requires size > 0 && page > 0
    ensures reports ==> (Continues(items, size, reports, page) <==> Multiple(size, page) < |items|)
    ensures !reports && Multiple(size, page - 1) <= |items| ==>
              (Continues(items, size, reports, page) <==> Multiple(size, page) <= |items|)
    ensures !Continues(items, size, reports, page) && Multiple(size, page - 1) <= |items| ==>
              Upto(items, size, page) == |items|
  {
    PageCountLess(|items|, size, page);
  }

  /** The pages before this one were all full, or at least not reported to be the last. */
  predicate Reached<T>(items: seq<T>, size: nat, reports: bool, page: nat)
    requires page > 0
  {
    Multiple(size, page - 1) <= |items| && (reports && page > 1 ==> Multiple(size, page - 1) < |items|)
  }

  /** What one more page brings. */
  lemma PageServed<T>(items: seq<T>, size: nat, reports: bool, page: nat)
    requires size > 0 && 0 < page && Reached(items, size, reports, page)
    ensures items[..Upto(items, size, page - 1)] + Cut(items, size, page) == items[..Upto(items, size, page)]
    ensures Continues(items, size, reports, page) ==> Reached(items, size, reports, page + 1)
  {
    ContinuesMeans(items, size, reports, page);
  }

  /** The result of a paged scan, in terms of the flat list alone. */
  function PagedResult<T>(items: seq<T>, size: nat, reports: bool, kind: T -> Class): Result<Scan<T>, ApiError> {
    if FlatScan(items[..Upto(items, size, MAX_PAGES)], kind).Ambiguous? then Ok(Ambiguous)
    else if Fits(items, size, reports) then Ok(FlatScan(items, kind))
    else Err(PaginationLimit)
  }

  /** When the list fits the page limit, paging makes no difference at all. */
  lemma FittingListsAreScannedFlat<T>(items: seq<T>, size: nat, reports: bool, kind: T -> Class)
    requires Fits(items, size, reports)
    ensures PagedResult(items, size, reports, kind) == Ok(FlatScan(items, kind))
  {
    assert items[..Upto(items, size, MAX_PAGES)] == items;
  }

  /** The items of one page, folded into the scan so far; stops at the second hit. */
  method ScanPage<T>(scan: Scan<T>, page: seq<T>, kind: T -> Class, ghost before: seq<T>) returns (r: Scan<T>)
    requires scan.Seen?
    ensures scan == FlatScan(before, kind) ==> r == FlatScan(before + page, kind)
  {
    r := scan;
    var i := 0;
    assert before + page[..0] == before;
    while i < |page|
      invariant 0 <= i <= |page| && r.Seen?
      invariant scan == FlatScan(before, kind) ==> r == FlatScan(before + page[..i], kind)
    {
      if scan == FlatScan(before, kind) {
        OneItemOn(before, page, i, kind);
      }
      r := Extend(r, page[i], kind);
      if r.Ambiguous? {
        return;
      }
      i := i + 1;
    }
    assert page[..i] == page;
  }

  /** One more item of a page, and a second hit that settles the whole page. */
  lemma OneItemOn<T>(before: seq<T>, page: seq<T>, i: nat, kind: T -> Class)
    requires i < |page| && FlatScan(before + page[..i], kind).Seen?
    ensures var r := Extend(FlatScan(before + page[..i], kind), page[i], kind);
            && r == FlatScan(before + page[..i + 1], kind)
            && (r.Ambiguous? ==> FlatScan(before + page, kind) == r)
  {
    assert before + page[..i + 1] == (before + page[..i]) + [page[i]];
    ExtendIsFlat(before + page[..i], page[i], kind);
    if FlatScan(before + page[..i + 1], kind).Ambiguous? {
      AmbiguousStays(before + page[..i + 1], page[i + 1..], kind);
      assert (before + page[..i + 1]) + page[i + 1..] == before + page;
    }
  }

  /** Requests one page and folds it into the scan; also says whether another page is to follow. */
  method ReadPage<T>(
      server: Server<T>, size: nat, kind: T -> Class, page: nat, scan: Scan<T>,
      ghost items: seq<T>, ghost reports: bool)
    returns (r: Result<(Scan<T>, bool), ApiError>)
    requires size > 0 && page > 0 && scan.Seen?
    ensures r.Err? ==> server(page) == Err(r.error)
    ensures server(page).Err? ==> r.Err?
    ensures (ServesOrFails(server, items, size, reports) && Reached(items, size, reports, page) && r.Ok?
             && scan == FlatScan(items[..Upto(items, size, page - 1)], kind)) ==>
              && r.value.0 == FlatScan(items[..Upto(items, size, page)], kind)
              && r.value.1 == Continues(items, size, reports, page)
  {
    var reply := server(page);
    if reply.Err? {
      return Err(reply.error);
    }
    if Reached(items, size, reports, page) {
      PageServed(items, size, reports, page);
    }
    var after := ScanPage(scan, reply.value.items, kind, items[..Upto(items, size, page - 1)]);
    return Ok((after, HasNextPage(page, |reply.value.items|, size, reply.value.totalPages)));
  }

  /**
   * The page loop that record and zone lookup share. Against any server whatever it sends at most
   * one hundred requests. Against a server that serves `items`, for any list and either way of
   * reporting, its result is the paged result of that list; if requests may fail, it is that
   * result or the error of a request.
   */
  method ScanPages<T>(server: Server<T>, size: nat, kind: T -> Class, ghost items: seq<T>, ghost reports: bool)
    returns (r: Result<Scan<T>, ApiError>, requests: nat)
    requires size > 0
    ensures requests <= MAX_PAGES
    ensures Serves(server, items, size, reports) ==> r == PagedResult(items, size, reports, kind)
    ensures ServesOrFails(server, items, size, reports) ==>
              r == PagedResult(items, size, reports, kind) || (r.Err? && RequestError(server, r.error))
  {
    var scan: Scan<T> := Seen(None, None);
    requests := 0;
    var page := 1;
    ghost var served := ServesOrFails(server, items, size, reports);
    assert items[..Upto(items, size, 0)] == [];
    while true
      invariant 1 <= page == requests + 1 <= MAX_PAGES + 1
      invariant scan.Seen?
      invariant served ==>
                  && Reached(items, size, reports, page)
                  && scan == FlatScan(items[..Upto(items, size, page - 1)], kind)
      decreases MAX_PAGES + 1 - page
    {
      if page > MAX_PAGES {
        return Err(PaginationLimit), requests;
      }
      requests := requests + 1;
      var reply := ReadPage(server, size, kind, page, scan, items, reports);
      if reply.Err? {
        return Err(reply.error), requests;
      }
      scan := reply.value.0;
      if scan.Ambiguous? {
        if served {
          MultipleGrows(size, page, MAX_PAGES);
          PrefixAmbiguous(items, Upto(items, size, page), Upto(items, size, MAX_PAGES), kind);
        }
        return Ok(Ambiguous), requests;
      }
      if !reply.value.1 {
        if served {
          WholeListScanned(items, size, reports, page, kind);
        }
        return Ok(scan), requests;
      }
      if served {
        PageServed(items, size, reports, page);
      }
      page := page + 1;
    }
  }

  lemma PrefixAmbiguous<T>(items: seq<T>, a: nat, b: nat, kind: T -> Class)
    requires a <= b <= |items| && FlatScan(items[..a], kind).Ambiguous?
    ensures FlatScan(items[..b], kind).Ambiguous?
  {
    AmbiguousStays(items[..a], items[a..b], kind);
    assert items[..a] + items[a..b] == items[..b];
  }

  lemma WholeListScanned<T>(items: seq<T>, size: nat, reports: bool, page: nat, kind: T -> Class)
    requires size > 0 && 1 <= page <= MAX_PAGES
    requires Reached(items, size, reports, page) && !Continues(items, size, reports, page)
    requires FlatScan(items[..Upto(items, size, page)], kind).Seen?
    ensures PagedResult(items, size, reports, kind) == Ok(FlatScan(items[..Upto(items, size, page)], kind))
  {
    ContinuesMeans(items, size, reports, page);
    MultipleGrows(size, page, MAX_PAGES);
    assert items[..Upto(items, size, page)] == items;
    FittingListsAreScannedFlat(items, size, reports, kind);
  }

  // ----- Record lookup -----

  function RecordKind(s: Slot): ((RecordKey, DnsRecord)) -> Class {
    (item: (RecordKey, DnsRecord)) => if RecordSlot(item.0, item.1) == s then Hit else Miss
  }

  function RecordResult(
      scan: Result<Scan<(RecordKey, DnsRecord)>, ApiError>): Result<Option<(RecordKey, DnsRecord)>, ApiError>
  {
    match scan
    case Err(e) => Err(e)
    case Ok(Ambiguous) => Err(AmbiguousRecord)
    case Ok(Seen(hit, _)) => Ok(hit)
  }

  /** The list holds records of the store, none twice, and all those of the slot. */
  ghost predicate Lists(items: seq<(RecordKey, DnsRecord)>, store: Store, s: Slot) {
    && (forall i :: 0 <= i < |items| ==> items[i].0 in store && store[items[i].0] == items[i].1)
    && (forall i, j :: 0 <= i < j < |items| ==> items[i].0 != items[j].0)
    && (forall k :: k in Matching(store, s) ==> (k, store[k]) in items)
  }

  method FindRecord(
      server: Server<(RecordKey, DnsRecord)>, s: Slot,
      ghost items: seq<(RecordKey, DnsRecord)>, ghost reports: bool, ghost store: Store)
    returns (r: Result<Option<(RecordKey, DnsRecord)>, ApiError>, requests: nat)
    ensures requests <= MAX_PAGES
    ensures (Serves(server, items, RECORD_PAGE_SIZE, reports) && Lists(items, store, s)
             && Fits(items, RECORD_PAGE_SIZE, reports)) ==> r == FlatLookup(store, s)
    ensures ServesOrFails(server, items, RECORD_PAGE_SIZE, reports) && Lists(items, store, s) && r.Ok? ==>
              r == FlatLookup(store, s)
  {
    var scan;
    scan, requests := ScanPages(server, RECORD_PAGE_SIZE, RecordKind(s), items, reports);
    r := RecordResult(scan);
    if Lists(items, store, s) {
      FlatScanIsStoreLookup(items, store, s);
    }
    if Fits(items, RECORD_PAGE_SIZE, reports) {
      FittingListsAreScannedFlat(items, RECORD_PAGE_SIZE, reports, RecordKind(s));
    }
  }

  lemma {:induction false} SelectSound<T>(items: seq<T>, kind: T -> Class, c: Class)
    ensures forall x :: x in Select(items, kind, c) <==> x in items && kind(x) == c
    ensures |Select(items, kind, c)| <= |items|
  {
    if items != [] {
      var rest, last := items[..|items| - 1], items[|items| - 1];
      SelectSound(rest, kind, c);
      assert items == rest + [last];
    }
  }

  /** The first item of class `c` is at index `i`. */
  predicate FirstAt<T(!new)>(items: seq<T>, kind: T -> Class, c: Class, i: nat) {
    i < |items| && kind(items[i]) == c && forall j :: 0 <= j < i ==> kind(items[j]) != c
  }

  /** Two different indices hold items of class `c`. */
  ghost predicate TwoOf<T(!new)>(items: seq<T>, kind: T -> Class, c: Class) {
    exists i, j :: 0 <= i < j < |items| && kind(items[i]) == c && kind(items[j]) == c
  }

  /** How many items of a class there are, none, one or more, and which is the first. */
  lemma {:induction false} SelectCounts<T(!new)>(items: seq<T>, kind: T -> Class, c: Class)
    ensures var found := Select(items, kind, c);
            && (found == [] <==> forall i :: 0 <= i < |items| ==> kind(items[i]) != c)
            && (|found| >= 2 <==> TwoOf(items, kind, c))
            && (found != [] ==> exists i: nat :: FirstAt(items, kind, c, i) && found[0] == items[i])
  {
    if items != [] {
      var rest, last := items[..|items| - 1], items[|items| - 1];
      SelectCounts(rest, kind, c);
      if kind(last) == c && Select(rest, kind, c) == [] {
        assert FirstAt(items, kind, c, |items| - 1);
      }
      if Select(rest, kind, c) != [] {
        var i: nat :| FirstAt(rest, kind, c, i) && Select(rest, kind, c)[0] == rest[i];
        assert FirstAt(items, kind, c, i) && items[i] == rest[i];
        if kind(last) == c {
          assert items[|items| - 1] == last;
          assert TwoOf(items, kind, c);
        }
      }
      if TwoOf(rest, kind, c) {
        var i, j :| 0 <= i < j < |rest| && kind(rest[i]) == c && kind(rest[j]) == c;
        assert items[i] == rest[i] && items[j] == rest[j];
      }
      if TwoOf(items, kind, c) {
        var i, j :| 0 <= i < j < |items| && kind(items[i]) == c && kind(items[j]) == c;
        assert items[i] == rest[i] && (j < |rest| ==> items[j] == rest[j]);
      }
    }
  }

  lemma {:induction false} SelectKeepsApart(items: seq<(RecordKey, DnsRecord)>, s: Slot)
    requires forall i, j :: 0 <= i < j < |items| ==> items[i].0 != items[j].0
    ensures var hits := Select(items, RecordKind(s), Hit);
            forall i, j :: 0 <= i < j < |hits| ==> hits[i].0 != hits[j].0
  {
    if items != [] {
      var rest, last := items[..|items| - 1], items[|items| - 1];
      SelectKeepsApart(rest, s);
      var hits := Select(rest, RecordKind(s), Hit);
      SelectSound(rest, RecordKind(s), Hit);
      forall i | 0 <= i < |hits|
        ensures hits[i].0 != last.0
      {
        assert hits[i] in hits;
        var k :| 0 <= k < |rest| && rest[k] == hits[i];
        assert items[k] == rest[k] && items[|items| - 1] == last;
      }
    }
  }

  /** Scanning such a list is the same as asking the store. */
  lemma FlatScanIsStoreLookup(items: seq<(RecordKey, DnsRecord)>, store: Store, s: Slot)
    requires Lists(items, store, s)
    ensures RecordResult(Ok(FlatScan(items, RecordKind(s)))) == FlatLookup(store, s)
  {
    var hits := Select(items, RecordKind(s), Hit);
    SelectSound(items, RecordKind(s), Hit);
    SelectKeepsApart(items, s);
    HitsAreMatches(items, store, s, hits);
    if |hits| >= 2 {
      ManyHits(hits, store, s);
    } else if |hits| == 1 {
      OneHit(hits[0], store, s);
    }
  }

  lemma ManyHits(hits: seq<(RecordKey, DnsRecord)>, store: Store, s: Slot)
    requires |hits| >= 2 && hits[0].0 != hits[1].0
    requires hits[0].0 in Matching(store, s) && hits[1].0 in Matching(store, s)
    ensures FlatLookup(store, s) == Err(AmbiguousRecord)
  {
    var found, pair := Matching(store, s), {hits[0].0, hits[1].0};
    assert pair <= found && |found - pair| == |found| - |pair|;
  }

  lemma OneHit(hit: (RecordKey, DnsRecord), store: Store, s: Slot)
    requires Matching(store, s) == {hit.0} && hit.1 == store[hit.0]
    ensures FlatLookup(store, s) == Ok(Some(hit))
  {
  }

  lemma HitsAreMatches(items: seq<(RecordKey, DnsRecord)>, store: Store, s: Slot, hits: seq<(RecordKey, DnsRecord)>)
    requires Lists(items, store, s)
    requires forall x :: x in hits <==> x in items && RecordKind(s)(x) == Hit
    ensures forall i :: 0 <= i < |hits| ==> hits[i].0 in Matching(store, s) && hits[i].1 == store[hits[i].0]
    ensures Matching(store, s) == set i | 0 <= i < |hits| :: hits[i].0
    ensures |hits| == 1 ==> Matching(store, s) == {hits[0].0}
    ensures hits == [] ==> Matching(store, s) == {}
  {
    forall i | 0 <= i < |hits|
      ensures hits[i].0 in Matching(store, s) && hits[i].1 == store[hits[i].0]
    {
      assert hits[i] in hits;
      var k :| 0 <= k < |items| && items[k] == hits[i];
    }
    forall k | k in Matching(store, s)
      ensures exists i :: 0 <= i < |hits| && hits[i].0 == k
    {
      assert (k, store[k]) in items;
      assert (k, store[k]) in hits;
      var i :| 0 <= i < |hits| && hits[i] == (k, store[k]);
    }
  }

  // ----- Zone lookup by name -----

  datatype Zone = Zone(id: string, name: string, status: string)

  predicate IsActive(z: Zone) {
    SameText(z.status, "active")
  }

  function ZoneKind(name: string): Zone -> Class {
    (z: Zone) => if !SameText(z.name, name) then Miss else if IsActive(z) then Hit else Unusable
  }

  function ZoneResult(scan: Result<Scan<Zone>, ApiError>): Result<string, ApiError> {
    match scan
    case Err(e) => Err(e)
    case Ok(Ambiguous) => Err(AmbiguousZone)
    case Ok(Seen(Some(z), _)) => Ok(z.id)
    case Ok(Seen(None, Some(z))) => Err(ZoneNotActive(z.status))
    case Ok(Seen(None, None)) => Err(ZoneNotFound)
  }

  /** The uncached lookup of a zone name in the account's list of zones. */
  function FlatZone(zones: seq<Zone>, name: string): Result<string, ApiError> {
    ZoneResult(Ok(FlatScan(zones, ZoneKind(name))))
  }

  method FindZone(server: Server<Zone>, name: string, ghost zones: seq<Zone>, ghost reports: bool)
    returns (r: Result<string, ApiError>, requests: nat)
    ensures requests <= MAX_PAGES
    ensures Serves(server, zones, ZONE_PAGE_SIZE, reports) ==>
              r == ZoneResult(PagedResult(zones, ZONE_PAGE_SIZE, reports, ZoneKind(name)))
    ensures Serves(server, zones, ZONE_PAGE_SIZE, reports) && Fits(zones, ZONE_PAGE_SIZE, reports) ==>
              r == FlatZone(zones, name)
    ensures ServesOrFails(server, zones, ZONE_PAGE_SIZE, reports) && r.Ok? ==> r == FlatZone(zones, name)
  {
    var scan;
    scan, requests := ScanPages(server, ZONE_PAGE_SIZE, ZoneKind(name), zones, reports);
    r := ZoneResult(scan);
    if Fits(zones, ZONE_PAGE_SIZE, reports) {
      FittingListsAreScannedFlat(zones, ZONE_PAGE_SIZE, reports, ZoneKind(name));
    }
  }

  /** The zone at this index bears the name, and its status is "active", both in any case. */
  predicate ActiveAt(zones: seq<Zone>, name: string, i: nat) {
    i < |zones| && SameText(zones[i].name, name) && SameText(zones[i].status, "active")
  }

  ghost predicate OnlyActiveAt(zones: seq<Zone>, name: string, i: nat) {
    ActiveAt(zones, name, i) && forall j: nat :: ActiveAt(zones, name, j) ==> j == i
  }

  /** The first zone of the name is at this index. */
  predicate FirstNamedAt(zones: seq<Zone>, name: string, i: nat) {
    && i < |zones| && SameText(zones[i].name, name)
    && forall j :: 0 <= j < i ==> !SameText(zones[j].name, name)
  }

  /**
   * Exactly what a lookup by name answers: the ID of the only active zone of the name, whatever
   * inactive ones there are beside it; ambiguous when two are active; the status of the first zone
   * of the name when none is active; and not found when no zone bears the name.
   */
  lemma FlatZoneExactly(zones: seq<Zone>, name: string)
    ensures FlatZone(zones, name).Ok? <==> exists i: nat :: OnlyActiveAt(zones, name, i)
    ensures forall i: nat :: OnlyActiveAt(zones, name, i) ==> FlatZone(zones, name) == Ok(zones[i].id)
    ensures FlatZone(zones, name) == Err(AmbiguousZone) <==>
              exists i: nat, j: nat :: i < j && ActiveAt(zones, name, i) && ActiveAt(zones, name, j)
    ensures forall i: nat :: FirstNamedAt(zones, name, i) && (forall j: nat :: !ActiveAt(zones, name, j)) ==>
              FlatZone(zones, name) == Err(ZoneNotActive(zones[i].status))
    ensures FlatZone(zones, name) == Err(ZoneNotFound) <==>
              forall i :: 0 <= i < |zones| ==> !SameText(zones[i].name, name)
  {
    var kind := ZoneKind(name);
    var hits, unusable := Select(zones, kind, Hit), Select(zones, kind, Unusable);
    SelectCounts(zones, kind, Hit);
    SelectCounts(zones, kind, Unusable);
    HitsAreActive(zones, name);
    if hits != [] {
      var i: nat :| FirstAt(zones, kind, Hit, i) && hits[0] == zones[i];
      assert ActiveAt(zones, name, i);
      if |hits| == 1 {
        assert OnlyActiveAt(zones, name, i);
      }
    } else if unusable != [] {
      var i: nat :| FirstAt(zones, kind, Unusable, i) && unusable[0] == zones[i];
      forall k: nat | FirstNamedAt(zones, name, k)
        ensures k == i
      {
        assert !ActiveAt(zones, name, k) && !ActiveAt(zones, name, i);
      }
    }
  }

  lemma HitsAreActive(zones: seq<Zone>, name: string)
    ensures forall i: nat :: ActiveAt(zones, name, i) <==> i < |zones| && ZoneKind(name)(zones[i]) == Hit
    ensures TwoOf(zones, ZoneKind(name), Hit) <==>
            exists i: nat, j: nat :: i < j && ActiveAt(zones, name, i) && ActiveAt(zones, name, j)
  {
    assert forall i: nat :: ActiveAt(zones, name, i) <==> i < |zones| && ZoneKind(name)(zones[i]) == Hit;
    if TwoOf(zones, ZoneKind(name), Hit) {
      var i, j :| 0 <= i < j < |zones| && ZoneKind(name)(zones[i]) == Hit && ZoneKind(name)(zones[j]) == Hit;
      assert ActiveAt(zones, name, i) && ActiveAt(zones, name, j);
    }
  }

  /** A successful zone lookup names the only active zone of that name, and there is one. */
  lemma FlatZoneIsUniqueActive(zones: seq<Zone>, name: string)
    requires FlatZone(zones, name).Ok?
    ensures exists i :: 0 <= i < |zones| && zones[i].id == FlatZone(zones, name).value
                        && SameText(zones[i].name, name) && IsActive(zones[i])
    ensures forall i :: 0 <= i < |zones| && SameText(zones[i].name, name) && IsActive(zones[i]) ==>
                          zones[i].id == FlatZone(zones, name).value
  {
    var hits := Select(zones, ZoneKind(name), Hit);
    SelectSound(zones, ZoneKind(name), Hit);
    assert |hits| == 1 && hits[0] in hits;
    var k :| 0 <= k < |zones| && zones[k] == hits[0];
    forall i | 0 <= i < |zones| && SameText(zones[i].name, name) && IsActive(zones[i])
      ensures zones[i].id == FlatZone(zones, name).value
    {
      assert zones[i] in hits;
    }
  }
}
