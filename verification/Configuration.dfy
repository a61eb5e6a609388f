/** The configuration facts that the lock and synchronisation proofs rest on (`src/config.rs`). */
module Configuration {
  import opened Text

  datatype RecordType = A | AAAA

  function TypeText(t: RecordType): string {
    match t case A => "A" case AAAA => "AAAA"
  }

  datatype RecordConfig = RecordConfig(
    zone: string,
    zoneId: Option<string>,
    name: string,
    rtype: RecordType,
    ttl: nat,
    proxied: bool,
    createIfMissing: bool)

  datatype ConfigError =
    | IntervalRange
    | TimeoutRange
    | RelativeTokenPath
    | BadAccountId
    | NoRecords
    | TooManyRecords
    | BadProviders
    | BadRecord(index: nat)
    | FamilyDisabled(index: nat)
    | DuplicateRecord(index: nat)

  const MIN_INTERVAL_SECONDS := 60
  const MAX_INTERVAL_SECONDS := 86_400
  const MIN_REQUEST_TIMEOUT_SECONDS := 1
  const MAX_REQUEST_TIMEOUT_SECONDS := 120
  const MAX_RECORDS := 50
  const MAX_PROVIDERS_PER_FAMILY := 8
  const MAX_PROVIDER_LENGTH := 2048

  datatype IpDiscovery = IpDiscovery(enabled: bool, providers: seq<string>)

  /** Reads a provider's URL: its normal form when it is an acceptable one. */
  type UrlReader = string -> Option<string>

  function CanonicalName(name: string): string {
    Lower(TrimEndDots(Trim(name)))
  }

  function CanonicalId(value: Option<string>): Option<string> {
    match value
    case None => None
    case Some(v) => if Trim(v) == "" then None else Some(Lower(Trim(v)))
  }

  function CanonicalRecord(r: RecordConfig): RecordConfig {
    r.(zone := CanonicalName(r.zone), name := CanonicalName(r.name), zoneId := CanonicalId(r.zoneId))
  }

  /** A text that trimming and dot-stripping would leave alone. */
  predicate TightEnds(s: string) {
    s == "" || (!IsSpace(s[0]) && !IsSpace(s[|s| - 1]) && s[|s| - 1] != '.')
  }

  lemma TightIsFixed(s: string)
    requires TightEnds(s)
    ensures CanonicalName(s) == Lower(s)
  {
    assert TrimStart(s) == s;
  }

  /**
   * Canonicalisation is not idempotent: `"a. ."` becomes `"a. "` and only then `"a"`. It is a
   * fixed point exactly when removing the trailing dots does not uncover trailing white space.
   */
  lemma CanonicalNameFixedPoint(s: string)
    ensures CanonicalName(CanonicalName(s)) == CanonicalName(s) <==>
            var bare := TrimEndDots(Trim(s)); bare == "" || !IsSpace(bare[|bare| - 1])
  {
    var c := CanonicalName(s);
    CanonicalNameShape(s);
    if c != "" && IsSpace(c[|c| - 1]) {
      CanonicalNameShape(c);
    } else {
      TightIsFixed(c);
    }
  }

  /** What one canonicalisation guarantees about the ends of its result. */
  lemma CanonicalNameShape(s: string)
    ensures |CanonicalName(s)| <= |Trim(s)|
    ensures Lower(CanonicalName(s)) == CanonicalName(s)
    ensures var c := CanonicalName(s);
            c != "" ==> !IsSpace(c[0]) && c[|c| - 1] != '.' && IsSpace(c[|c| - 1]) == IsSpace(Trim(s)[|c| - 1])
    ensures s != "" && IsSpace(s[|s| - 1]) ==> CanonicalName(s) != s
  {
    var t := TrimEndDots(Trim(s));
    LowerIdempotent(t);
    if s != "" && IsSpace(s[|s| - 1]) {
      assert Trim(s) != s;
      assert |Trim(s)| < |s|;
    }
  }

  /** A name in white space and with dots behind it is canonicalised to the name in lower case. */
  lemma CanonicalNameOf(before: string, name: string, dots: string, after: string)
    requires AllSpace(before) && AllSpace(after) && forall i :: 0 <= i < |dots| ==> dots[i] == '.'
    requires name != "" && !IsSpace(name[0]) && !IsSpace(name[|name| - 1]) && name[|name| - 1] != '.'
    ensures CanonicalName(before + (name + dots) + after) == Lower(name)
  {
    TrimExactly(before, name + dots, after);
    DotsAreTrimmed(name, dots);
  }

  lemma CanonicalNameTwiceExample()
    ensures CanonicalName("a. .") == "a. " && CanonicalName("a. ") == "a"
  {
    assert TrimStart("a. .") == "a. .";
    assert TrimEnd("a. .") == "a. .";
    assert "a. ."[..3] == "a. ";
    assert TrimEndDots("a. .") == TrimEndDots("a. ") == "a. ";
    assert Lower("a. ") == "a. ";
    assert TrimStart("a. ") == "a. ";
    assert "a. "[..2] == "a." && "a."[..1] == "a";
    assert TrimEnd("a. ") == TrimEnd("a.") == "a.";
    assert TrimEndDots("a.") == TrimEndDots("a") == "a";
    assert Lower("a") == "a";
  }

  predicate NameChar(c: char) {
    IsDigit(c) || 'a' <= c <= 'z' || 'A' <= c <= 'Z' || c == '-'
  }

  predicate ValidLabel(piece: string, first: bool, allowWildcard: bool) {
    && piece != ""
    && ((allowWildcard && first && piece == "*")
        || (|piece| <= 63 && piece[0] != '-' && piece[|piece| - 1] != '-' && forall c <- piece :: NameChar(c)))
  }

  predicate ValidDnsName(name: string, allowWildcard: bool) {
    && 0 < |name| <= 253
    && var ls := Labels(name);
       forall i :: 0 <= i < |ls| ==> ValidLabel(ls[i], i == 0, allowWildcard)
  }

  predicate IsHexDigit(c: char) {
    IsDigit(c) || 'a' <= c <= 'f' || 'A' <= c <= 'F'
  }

  predicate ValidZoneId(id: string) {
    id == Lower(Trim(id)) && |id| == 32 && forall c <- id :: IsHexDigit(c)
  }

  predicate EndsWith(s: string, tail: string) {
    |tail| <= |s| && s[|s| - |tail|..] == tail
  }

  predicate ValidRecord(r: RecordConfig) {
    && r.zone == CanonicalName(r.zone)
    && r.name == CanonicalName(r.name)
    && ValidDnsName(r.zone, false)
    && ValidDnsName(r.name, true)
    && (r.name == r.zone || EndsWith(r.name, "." + r.zone))
    && (r.zoneId.Some? ==> ValidZoneId(r.zoneId.value))
    && (r.ttl == 1 || 60 <= r.ttl <= 86_400)
    && (r.proxied ==> r.ttl == 1)
  }

  datatype Resource = Resource(zone: string, rtype: RecordType, name: string)

  function ResourceOf(r: RecordConfig): Resource {
    Resource(CanonicalName(r.zone), r.rtype, CanonicalName(r.name))
  }

  /** The resource read directly off a record's fields. */
  function Named(r: RecordConfig): Resource {
    Resource(r.zone, r.rtype, r.name)
  }

  predicate Tidy(r: RecordConfig) {
    Lower(r.zone) == r.zone && Lower(r.name) == r.name
  }

  predicate FamilyEnabled(t: RecordType, ipv4: bool, ipv6: bool) {
    match t case A => ipv4 case AAAA => ipv6
  }

  /** The first `n` records name pairwise different resources. */
  predicate DistinctUpTo(records: seq<RecordConfig>, n: nat)
    requires n <= |records|
  {
    forall i, j :: 0 <= i < j < n ==> ResourceOf(records[i]) != ResourceOf(records[j])
  }

  predicate ValidRecords(records: seq<RecordConfig>) {
    && 0 < |records| <= MAX_RECORDS
    && DistinctUpTo(records, |records|)
    && forall i {:trigger ValidRecord(records[i])} :: 0 <= i < |records| ==> ValidRecord(records[i])
  }

  class Config {
    var intervalSeconds: nat
    var requestTimeoutSeconds: nat
    var tokenFile: string
    var accountId: Option<string>
    var ipv4: IpDiscovery
    var ipv6: IpDiscovery
    var records: seq<RecordConfig>

    ghost predicate Valid(urls: UrlReader)
      reads this
    {
      ValidSettings() && ValidDiscovery(ipv4, urls) && ValidDiscovery(ipv6, urls) && ValidRecordList()
    }

    predicate ValidSettings()
      reads this
    {
      && MIN_INTERVAL_SECONDS <= intervalSeconds <= MAX_INTERVAL_SECONDS
      && MIN_REQUEST_TIMEOUT_SECONDS <= requestTimeoutSeconds <= MAX_REQUEST_TIMEOUT_SECONDS
      && IsAbsolute(tokenFile)
      && (accountId.Some? ==> ValidZoneId(accountId.value))
    }

    ghost predicate ValidRecordList()
      reads this
    {
      && ValidRecords(records)
      && forall i :: 0 <= i < |records| ==> FamilyEnabled(records[i].rtype, ipv4.enabled, ipv6.enabled)
    }

    /** Rewrites every name, ID and provider in place; lists keep their length and order. */
    method Canonicalize()
      modifies this`records, this`accountId, this`ipv4, this`ipv6
      ensures |records| == |old(records)|
      ensures forall i :: 0 <= i < |records| ==> records[i] == CanonicalRecord(old(records)[i])
      ensures accountId == CanonicalId(old(accountId))
      ensures ipv4 == old(ipv4).(providers := AllTrimmed(old(ipv4).providers))
      ensures ipv6 == old(ipv6).(providers := AllTrimmed(old(ipv6).providers))
    {
      accountId := CanonicalId(accountId);
      var i := 0;
      while i < |records|
        invariant 0 <= i <= |records| == |old(records)|
        invariant accountId == CanonicalId(old(accountId)) && ipv4 == old(ipv4) && ipv6 == old(ipv6)
        invariant forall j :: 0 <= j < i ==> records[j] == CanonicalRecord(old(records)[j])
        invariant forall j :: i <= j < |records| ==> records[j] == old(records)[j]
      {
        records := records[i := CanonicalRecord(records[i])];
        i := i + 1;
      }
      var trimmed4 := TrimProviders(ipv4.providers);
      var trimmed6 := TrimProviders(ipv6.providers);
      ipv4, ipv6 := ipv4.(providers := trimmed4), ipv6.(providers := trimmed6);
    }

    method ScreenSettings() returns (r: Option<ConfigError>)
      ensures r.None? <==> ValidSettings()
      ensures r.None? <==>
                && 60 <= intervalSeconds <= 86400 && 1 <= requestTimeoutSeconds <= 120
                && tokenFile != "" && tokenFile[0] == '/' && (accountId.Some? ==> IdText(accountId.value))
    {
      if accountId.Some? {
        ZoneIdExactly(accountId.value);
      }
      if !(MIN_INTERVAL_SECONDS <= intervalSeconds <= MAX_INTERVAL_SECONDS) {
        return Some(IntervalRange);
      }
      if !(MIN_REQUEST_TIMEOUT_SECONDS <= requestTimeoutSeconds <= MAX_REQUEST_TIMEOUT_SECONDS) {
        return Some(TimeoutRange);
      }
      if !IsAbsolute(tokenFile) {
        return Some(RelativeTokenPath);
      }
      if accountId.Some? && !ValidZoneId(accountId.value) {
        return Some(BadAccountId);
      }
      return None;
    }

    method ScreenRecordList() returns (r: Result<(), ConfigError>)
      requires 0 < |records| <= MAX_RECORDS
      ensures r.Ok? <==> ValidRecordList()
    {
      var v4, v6 := ipv4.enabled, ipv6.enabled;
      r := ScreenRecords(records, ValidRecord, (c: RecordConfig) => FamilyEnabled(c.rtype, v4, v6), ResourceOf);
      if r.Ok? {
        assert DistinctUpTo(records, |records|);
      } else {
        var i := r.error.index;
        assert r.error.BadRecord? ==> !ValidRecord(records[i]);
        assert r.error.FamilyDisabled? ==> !FamilyEnabled(records[i].rtype, v4, v6);
        assert r.error.DuplicateRecord? ==> !DistinctUpTo(records, |records|);
      }
    }

    /** Accepts exactly the valid configurations. */
    method Validate(urls: UrlReader) returns (r: Result<(), ConfigError>)
      ensures r.Ok? <==> Valid(urls)
    {
      var settings := ScreenSettings();
      if settings.Some? {
        return Err(settings.value);
      }
      if records == [] {
        return Err(NoRecords);
      }
      if |records| > MAX_RECORDS {
        return Err(TooManyRecords);
      }
      var good4 := ScreenProviders(ipv4, urls);
      if !good4 {
        return Err(BadProviders);
      }
      var good6 := ScreenProviders(ipv6, urls);
      if !good6 {
        return Err(BadProviders);
      }
      r := ScreenRecordList();
    }
  }

  predicate IsAbsolute(path: string) {
    path != "" && path[0] == '/'
  }

  /** Enough providers, not too many, each with an acceptable URL, and no URL twice. */
  ghost predicate ValidDiscovery(d: IpDiscovery, urls: UrlReader) {
    && (d.enabled ==> d.providers != [])
    && |d.providers| <= MAX_PROVIDERS_PER_FAMILY
    && DistinctUrls(d.providers, |d.providers|, urls)
  }

  ghost predicate DistinctUrls(providers: seq<string>, n: nat, urls: UrlReader)
    requires n <= |providers|
  {
    && (forall i :: 0 <= i < n ==> |providers[i]| <= MAX_PROVIDER_LENGTH && urls(providers[i]).Some?)
    && (forall i, j :: 0 <= i < j < n ==> urls(providers[i]) != urls(providers[j]))
  }

  /** `validate_discovery`. */
  method ScreenProviders(d: IpDiscovery, urls: UrlReader) returns (ok: bool)
    ensures ok <==> ValidDiscovery(d, urls)
  {
    if (d.enabled && d.providers == []) || |d.providers| > MAX_PROVIDERS_PER_FAMILY {
      return false;
    }
    var unique: set<Option<string>> := {};
    var i := 0;
    while i < |d.providers|
      invariant 0 <= i <= |d.providers|
      invariant unique == set j | 0 <= j < i :: urls(d.providers[j])
      invariant DistinctUrls(d.providers, i, urls)
    {
      var url := urls(d.providers[i]);
      if |d.providers[i]| > MAX_PROVIDER_LENGTH || url.None? || url in unique {
        return false;
      }
      unique := unique + {url};
      i := i + 1;
    }
    return true;
  }

  function AllTrimmed(texts: seq<string>): (r: seq<string>)
    ensures |r| == |texts| && forall i :: 0 <= i < |texts| ==> r[i] == Trim(texts[i])
  {
    seq(|texts|, i requires 0 <= i < |texts| => Trim(texts[i]))
  }

  method TrimProviders(texts: seq<string>) returns (r: seq<string>)
    ensures r == AllTrimmed(texts)
  {
    r := texts;
    var i := 0;
    while i < |r|
      invariant 0 <= i <= |r| == |texts|
      invariant forall j :: 0 <= j < i ==> r[j] == Trim(texts[j])
      invariant forall j :: i <= j < |r| ==> r[j] == texts[j]
    {
      r := r[i := Trim(r[i])];
      i := i + 1;
    }
  }

  /**
   * The loop of `validate` over the records. It accepts exactly when every record is valid, has an
   * enabled family and a key of its own; otherwise it names the first offender, so that everything
   * before it is acceptable.
   */
  method ScreenRecords(
      records: seq<RecordConfig>,
      valid: RecordConfig -> bool,
      enabled: RecordConfig -> bool,
      key: RecordConfig -> Resource) returns (r: Result<(), ConfigError>)
    ensures r.Ok? ==> Acceptable(records, |records|, valid, enabled, key)
    ensures r.Err? ==>
              && (r.error.BadRecord? || r.error.FamilyDisabled? || r.error.DuplicateRecord?)
              && var i := r.error.index;
                 && i < |records|
                 && Acceptable(records, i, valid, enabled, key)
                 && (r.error.BadRecord? ==> !valid(records[i]))
                 && (r.error.FamilyDisabled? ==> valid(records[i]) && !enabled(records[i]))
                 && (r.error.DuplicateRecord? ==> exists j :: 0 <= j < i && key(records[j]) == key(records[i]))
  {
    var unique: set<Resource> := {};
    var i := 0;
    while i < |records|
      invariant 0 <= i <= |records|
      invariant unique == set j | 0 <= j < i :: key(records[j])
      invariant Acceptable(records, i, valid, enabled, key)
    {
      if !valid(records[i]) {
        return Err(BadRecord(i));
      }
      if !enabled(records[i]) {
        return Err(FamilyDisabled(i));
      }
      if key(records[i]) in unique {
        return Err(DuplicateRecord(i));
      }
      unique := unique + {key(records[i])};
      i := i + 1;
    }
    return Ok(());
  }

  ghost predicate Acceptable(
    records: seq<RecordConfig>, n: nat,
    valid: RecordConfig -> bool, enabled: RecordConfig -> bool, key: RecordConfig -> Resource)
    requires n <= |records|
  {
    && (forall j :: 0 <= j < n ==> valid(records[j]) && enabled(records[j]))
    && (forall i, j :: 0 <= i < j < n ==> key(records[i]) != key(records[j]))
  }

  /** Validated names are made of letters, digits, hyphens, dots and an initial asterisk. */
  lemma {:induction false} JoinedChars(parts: seq<string>, c: char)
    requires |parts| >= 1
    requires forall i :: 0 <= i < |parts| ==> c !in parts[i]
    requires c != '.'
    ensures c !in Joined(parts)
  {
    if |parts| > 1 {
      JoinedChars(parts[1..], c);
    }
  }

  lemma DnsNameExcludes(name: string, wild: bool, c: char)
    requires ValidDnsName(name, wild)
    requires !NameChar(c) && c != '.' && c != '*'
    ensures c !in name
  {
    var ls := Labels(name);
    LabelsRoundTrip(name);
    forall i | 0 <= i < |ls|
      ensures c !in ls[i]
    {
      assert ValidLabel(ls[i], i == 0, wild);
    }
    JoinedChars(ls, c);
  }

  /** An accepted record is its own canonical form, so its resource is read off its fields. */
  lemma ValidRecordIsCanonical(r: RecordConfig)
    requires ValidRecord(r)
    ensures ResourceOf(r) == Named(r) && Tidy(r)
    ensures CanonicalRecord(r) == r
  {
    CanonicalNameShape(r.zone);
    CanonicalNameShape(r.name);
    if r.zoneId.Some? {
      ValidIdIsCanonical(r.zoneId.value);
    }
  }

  lemma ValidIdIsCanonical(id: string)
    requires ValidZoneId(id)
    ensures CanonicalId(Some(id)) == Some(id)
  {
    assert |Trim(id)| == |Lower(Trim(id))| == 32;
  }

  /** Tidy records, no two of which name the same resource. */
  predicate NamedApart(records: seq<RecordConfig>) {
    && (forall i {:trigger Tidy(records[i])} :: 0 <= i < |records| ==> Tidy(records[i]))
    && (forall i, j {:trigger Named(records[i]), Named(records[j])} ::
          0 <= i < j < |records| ==> Named(records[i]) != Named(records[j]))
  }

  /** Accepted configurations list tidy records with pairwise different names. */
  lemma ValidRecordsAreNamedApart(records: seq<RecordConfig>)
    requires ValidRecords(records)
    ensures NamedApart(records)
  {
    forall i | 0 <= i < |records|
      ensures ResourceOf(records[i]) == Named(records[i]) && Tidy(records[i])
    {
      assert ValidRecord(records[i]);
      ValidRecordIsCanonical(records[i]);
    }
    assert DistinctUpTo(records, |records|);
  }

  // ----- What is accepted, in terms of characters -----

  /** Letters, digits and hyphens, one to 63 of them, with no hyphen at either end. */
  predicate PlainLabel(s: string, i: nat, j: nat)
    requires i <= j <= |s|
  {
    && 1 <= j - i <= 63 && s[i] != '-' && s[j - 1] != '-'
    && forall k :: i <= k < j ==> 'a' <= s[k] <= 'z' || 'A' <= s[k] <= 'Z' || '0' <= s[k] <= '9' || s[k] == '-'
  }

  /** The first label is an asterisk, and wildcards are allowed. */
  predicate Asterisk(s: string, wild: bool, i: nat, j: nat)
    requires i <= j <= |s|
  {
    wild && i == 0 && j == 1 && s[0] == '*'
  }

  /** Up to 253 characters, in which every piece between dots is a plain label or a leading asterisk. */
  ghost predicate DnsText(s: string, wild: bool) {
    && 1 <= |s| <= 253
    && forall i: nat, j: nat {:trigger Segment(s, i, j)} :: Segment(s, i, j) ==>
         PlainLabel(s, i, j) || Asterisk(s, wild, i, j)
  }

  lemma LabelExactly(s: string, wild: bool, i: nat, j: nat)
    requires i <= j <= |s|
    ensures ValidLabel(s[i..j], i == 0, wild) <==> PlainLabel(s, i, j) || Asterisk(s, wild, i, j)
  {
    var piece := s[i..j];
    assert forall k :: i <= k < j ==> s[k] == piece[k - i];
    assert Asterisk(s, wild, i, j) ==> piece == "*";
    if forall k :: i <= k < j ==> NameChar(s[k]) {
      forall c | c in piece
        ensures NameChar(c)
      {
        var k :| 0 <= k < |piece| && piece[k] == c;
        assert s[i + k] == c;
      }
    }
    if forall c <- piece :: NameChar(c) {
      assert forall k :: 0 <= k < |piece| ==> piece[k] in piece;
    }
  }

  /** A name is accepted exactly when it is such a text. */
  lemma DnsNameExactly(s: string, wild: bool)
    ensures ValidDnsName(s, wild) <==> DnsText(s, wild)
  {
    if ValidDnsName(s, wild) {
      forall i: nat, j: nat | Segment(s, i, j)
        ensures PlainLabel(s, i, j) || Asterisk(s, wild, i, j)
      {
        var k := SegmentIsLabel(s, i, j);
        assert ValidLabel(Labels(s)[k], k == 0, wild);
        LabelExactly(s, wild, i, j);
      }
    }
    if DnsText(s, wild) {
      forall k: nat | k < |Labels(s)|
        ensures ValidLabel(Labels(s)[k], k == 0, wild)
      {
        var i, j := LabelIsSegment(s, k);
        LabelExactly(s, wild, i, j);
      }
    }
  }

  /** No upper-case letter. */
  predicate LowerCase(s: string) {
    forall i :: 0 <= i < |s| ==> !('A' <= s[i] <= 'Z')
  }

  lemma LowerCaseIsFixed(s: string)
    ensures LowerCase(s) <==> Lower(s) == s
  {
  }

  /** The ends of such a text are no white space and no dots. */
  lemma DnsTextIsTight(s: string, wild: bool)
    requires ValidDnsName(s, wild)
    ensures TightEnds(s) && s != ""
  {
    var first, last := s[0], s[|s| - 1];
    if IsSpace(first) {
      DnsNameExcludes(s, wild, first);
    }
    if IsSpace(last) {
      DnsNameExcludes(s, wild, last);
    }
    if last == '.' {
      assert Segment(s, |s|, |s|);
      DnsNameExactly(s, wild);
    }
  }

  /** For such a text, being canonical is being in lower case. */
  lemma CanonicalIsLowerCase(s: string, wild: bool)
    requires ValidDnsName(s, wild)
    ensures s == CanonicalName(s) <==> LowerCase(s)
  {
    DnsTextIsTight(s, wild);
    TightIsFixed(s);
    LowerCaseIsFixed(s);
  }

  /** The 32 characters of an accepted ID are digits and letters from `a` to `f`. */
  predicate IdText(id: string) {
    |id| == 32 && forall i :: 0 <= i < 32 ==> '0' <= id[i] <= '9' || 'a' <= id[i] <= 'f'
  }

  lemma ZoneIdExactly(id: string)
    ensures ValidZoneId(id) <==> IdText(id)
  {
    LowerCaseIsFixed(id);
    if IdText(id) {
      TrimExactly("", id, "");
      assert "" + id + "" == id;
      assert forall c <- id :: IsHexDigit(c) by {
        forall c | c in id
          ensures IsHexDigit(c)
        {
          var k :| 0 <= k < |id| && id[k] == c;
        }
      }
    }
    if ValidZoneId(id) {
      LowerIdempotent(Trim(id));
      assert Lower(id) == id;
      assert forall i :: 0 <= i < 32 ==> id[i] in id;
    }
  }

  /**
   * Exactly which records are accepted: DNS names in lower case, the name the zone itself or under
   * it, an ID of 32 lower-case hexadecimal digits if any, a TTL of 1 or from 60 to 86400, and no
   * other TTL than 1 with the proxy.
   */
  lemma AcceptedExactly(r: RecordConfig)
    ensures ValidRecord(r) <==>
            && DnsText(r.zone, false) && LowerCase(r.zone) && DnsText(r.name, true) && LowerCase(r.name)
            && (r.name == r.zone || exists above :: r.name == above + "." + r.zone)
            && (r.zoneId.Some? ==> IdText(r.zoneId.value))
            && (r.ttl == 1 || (60 <= r.ttl <= 86400 && !r.proxied))
  {
    DnsNameExactly(r.zone, false);
    DnsNameExactly(r.name, true);
    if ValidDnsName(r.zone, false) && ValidDnsName(r.name, true) {
      CanonicalIsLowerCase(r.zone, false);
      CanonicalIsLowerCase(r.name, true);
    }
    if r.zoneId.Some? {
      ZoneIdExactly(r.zoneId.value);
    }
    UnderZone(r.name, r.zone);
  }

  lemma UnderZone(name: string, zone: string)
    ensures EndsWith(name, "." + zone) <==> exists above :: name == above + "." + zone
  {
    var tail := "." + zone;
    if EndsWith(name, tail) {
      assert name == name[..|name| - |tail|] + "." + zone;
    }
    if above :| name == above + "." + zone {
      assert name[|name| - |tail|..] == tail;
    }
  }

  /** An ID is canonicalised to its text in lower case without white space around it, and to none if nothing is left. */
  lemma CanonicalIdOf(before: string, id: string, after: string)
    requires AllSpace(before) && AllSpace(after)
    requires id == "" || (!IsSpace(id[0]) && !IsSpace(id[|id| - 1]))
    ensures CanonicalId(Some(before + id + after)) == if id == "" then None else Some(Lower(id))
  {
    TrimExactly(before, id, after);
  }
}
