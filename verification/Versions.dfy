/** Release versions, as `scripts/versioning.py` and `cirrusync-install.sh` read and order them. */
module Versions {
  import opened Text

  const MAX_COMPONENT := 999_999_999

  datatype Version = Version(major: nat, minor: nat, patch: nat)

  predicate InRange(v: Version) {
    v.major <= MAX_COMPONENT && v.minor <= MAX_COMPONENT && v.patch <= MAX_COMPONENT
  }

  // ----- Decimal numbers -----

  function Decimal(n: nat): (s: string)
    ensures s != "" && AllDigits(s)
  {
    if n < 10 then [DigitChar(n)] else Decimal(n / 10) + [DigitChar(n % 10)]
  }

  function Value(s: string): nat
    requires AllDigits(s)
  {
    if s == "" then 0 else 10 * Value(s[..|s| - 1]) + DigitValue(s[|s| - 1])
  }

  /** No sign, no leading zero, at most nine digits. */
  predicate ValidComponent(s: string) {
    s == "0" || (1 <= |s| <= 9 && AllDigits(s) && s[0] != '0')
  }

  lemma {:induction false} ValueOfDecimal(n: nat)
    ensures Value(Decimal(n)) == n
  {
    if n >= 10 {
      ValueOfDecimal(n / 10);
      assert Decimal(n)[..|Decimal(n)| - 1] == Decimal(n / 10);
    }
  }

  lemma {:induction false} DecimalOfValue(s: string)
    requires AllDigits(s) && s != "" && (s[0] != '0' || s == "0")
    ensures Decimal(Value(s)) == s
    ensures s[0] != '0' ==> Value(s) > 0
  {
    var front, last := s[..|s| - 1], s[|s| - 1];
    if |s| > 1 {
      assert front[0] == s[0];
      DecimalOfValue(front);
      assert Value(s) / 10 == Value(front) && Value(s) % 10 == DigitValue(last);
      assert s == front + [DigitChar(DigitValue(last))];
    } else {
      assert Value(front) == 0;
      assert s == [last];
    }
  }

  function PowerOfTen(k: nat): nat {
    if k == 0 then 1 else 10 * PowerOfTen(k - 1)
  }

  lemma {:induction false} DecimalLength(n: nat, k: nat)
    requires k > 0 && n < PowerOfTen(k)
    ensures |Decimal(n)| <= k
    ensures n > 0 ==> Decimal(n)[0] != '0'
  {
    if n >= 10 {
      DecimalLength(n / 10, k - 1);
    }
  }

  lemma {:induction false} ValueBelow(s: string)
    requires AllDigits(s)
    ensures Value(s) < PowerOfTen(|s|)
  {
    if s != "" {
      ValueBelow(s[..|s| - 1]);
    }
  }

  lemma {:induction false} PowersGrow(j: nat, k: nat)
    requires j <= k
    ensures 0 < PowerOfTen(j) <= PowerOfTen(k)
  {
    if j < k {
      PowersGrow(j, k - 1);
    } else if k > 0 {
      PowersGrow(j - 1, k - 1);
    }
  }

  lemma NineDigits()
    ensures PowerOfTen(9) == MAX_COMPONENT + 1
  {
    assert PowerOfTen(3) == 1000;
    assert PowerOfTen(6) == 1_000_000;
  }

  /** The numbers with a valid text are exactly those up to the maximum component. */
  lemma ComponentRoundTrip(n: nat)
    ensures n <= MAX_COMPONENT ==> ValidComponent(Decimal(n))
    ensures Value(Decimal(n)) == n
  {
    ValueOfDecimal(n);
    NineDigits();
    if 0 < n <= MAX_COMPONENT {
      DecimalLength(n, 9);
    }
  }

  lemma ComponentTextRoundTrip(s: string)
    requires ValidComponent(s)
    ensures AllDigits(s) && Value(s) <= MAX_COMPONENT && Decimal(Value(s)) == s && '.' !in s
  {
    DecimalOfValue(s);
    ValueBelow(s);
    PowersGrow(|s|, 9);
    NineDigits();
  }

  // ----- Parsing and printing -----

  predicate ValidVersionText(s: string) {
    var parts := Labels(s);
    |parts| == 3 && ValidComponent(parts[0]) && ValidComponent(parts[1]) && ValidComponent(parts[2])
  }

  /** The pattern, and then the bound on each component, which the pattern already implies. */
  function Parse(s: string): Option<Version> {
    if !ValidVersionText(s) then None
    else
      var parts := Labels(s);
      var v := Version(Value(parts[0]), Value(parts[1]), Value(parts[2]));
      if InRange(v) then Some(v) else None
  }

  function Print(v: Version): string {
    Decimal(v.major) + "." + Decimal(v.minor) + "." + Decimal(v.patch)
  }

  function Parts(v: Version): seq<string> {
    [Decimal(v.major), Decimal(v.minor), Decimal(v.patch)]
  }

  lemma PrintJoinsParts(v: Version)
    ensures Print(v) == Joined(Parts(v))
  {
    var rest := [Decimal(v.minor), Decimal(v.patch)];
    assert rest[1..] == [Decimal(v.patch)];
    assert Joined(rest) == Decimal(v.minor) + "." + Decimal(v.patch);
    assert Parts(v)[1..] == rest;
    assert Decimal(v.major) + "." + Joined(rest) == Print(v);
  }

  /** Every version in range is printed as text that is read back as the same version. */
  lemma ParseOfPrint(v: Version)
    ensures Parse(Print(v)) == if InRange(v) then Some(v) else None
  {
    PrintJoinsParts(v);
    NoDots(v);
    JoinedRoundTrip(Parts(v));
    ComponentRoundTrip(v.major);
    ComponentRoundTrip(v.minor);
    ComponentRoundTrip(v.patch);
  }

  lemma NoDots(v: Version)
    ensures forall i :: 0 <= i < 3 ==> '.' !in Parts(v)[i]
  {
  }

  /** Only canonical text is accepted: whatever parses is what its version prints as. */
  lemma PrintOfParse(s: string)
    ensures Parse(s).Some? <==> ValidVersionText(s)
    ensures Parse(s).Some? ==> Print(Parse(s).value) == s && InRange(Parse(s).value)
  {
    if ValidVersionText(s) {
      var parts := Labels(s);
      LabelsRoundTrip(s);
      ComponentTextRoundTrip(parts[0]);
      ComponentTextRoundTrip(parts[1]);
      ComponentTextRoundTrip(parts[2]);
      PrintJoinsParts(Parse(s).value);
      assert Parts(Parse(s).value) == parts;
    }
  }

  lemma ParseInjective(s: string, t: string)
    requires Parse(s).Some? && Parse(s) == Parse(t)
    ensures s == t
  {
    PrintOfParse(s);
    PrintOfParse(t);
  }

  // ----- Order -----

  function Component(v: Version, i: nat): nat
    requires i < 3
  {
    if i == 0 then v.major else if i == 1 then v.minor else v.patch
  }

  predicate FirstDifference(a: Version, b: Version, i: nat)
    requires i < 3
  {
    Component(a, i) != Component(b, i) && forall j: nat :: j < i ==> Component(a, j) == Component(b, j)
  }

  /** Item 11 of Semantic Versioning 2.0.0, for versions without pre-release identifiers. */
  ghost predicate Precedes(a: Version, b: Version) {
    exists i: nat :: i < 3 && FirstDifference(a, b, i) && Component(a, i) < Component(b, i)
  }

  /** The order of the tuple of components. */
  predicate TupleLess(a: Version, b: Version) {
    || a.major < b.major
    || (a.major == b.major && (a.minor < b.minor || (a.minor == b.minor && a.patch < b.patch)))
  }

  lemma TupleOrderIsPrecedence(a: Version, b: Version)
    ensures TupleLess(a, b) <==> Precedes(a, b)
  {
    if TupleLess(a, b) {
      var i := if a.major < b.major then 0 else if a.minor < b.minor then 1 else 2;
      assert FirstDifference(a, b, i);
    }
    if Precedes(a, b) {
      var i: nat :| i < 3 && FirstDifference(a, b, i) && Component(a, i) < Component(b, i);
      assert i > 0 ==> Component(a, 0) == Component(b, 0);
      assert i > 1 ==> Component(a, 1) == Component(b, 1);
    }
  }

  /** Precedence is a strict total order. */
  lemma PrecedenceIsTotalOrder(a: Version, b: Version, c: Version)
    ensures !Precedes(a, a)
    ensures Precedes(a, b) && Precedes(b, c) ==> Precedes(a, c)
    ensures a == b || Precedes(a, b) || Precedes(b, a)
  {
    TupleOrderIsPrecedence(a, a);
    TupleOrderIsPrecedence(a, b);
    TupleOrderIsPrecedence(b, a);
    TupleOrderIsPrecedence(b, c);
    TupleOrderIsPrecedence(a, c);
  }

  lemma ParsedComponents(s: string)
    ensures Parse(s).Some? <==> ValidVersionText(s)
    ensures Parse(s).Some? ==> Print(Parse(s).value) == s
    ensures Parse(s).Some? ==> forall i :: 0 <= i < 3 ==>
              && AllDigits(Labels(s)[i]) && Value(Labels(s)[i]) == Component(Parse(s).value, i)
  {
    PrintOfParse(s);
  }

  datatype Relation = Newer | Equal | Older

  /** The installer's comparison of two version texts. */
  method CompareReleaseVersions(candidate: string, installed: string) returns (r: Option<Relation>)
    ensures r.Some? <==> Parse(candidate).Some? && Parse(installed).Some?
    ensures r.Some? ==>
              && (r.value.Newer? <==> Precedes(Parse(installed).value, Parse(candidate).value))
              && (r.value.Older? <==> Precedes(Parse(candidate).value, Parse(installed).value))
              && (r.value.Equal? <==> candidate == installed)
  {
    ParsedComponents(candidate);
    ParsedComponents(installed);
    if !ValidVersionText(candidate) || !ValidVersionText(installed) {
      return None;
    }
    var ours, theirs := Labels(candidate), Labels(installed);
    ghost var a, b := Parse(candidate).value, Parse(installed).value;
    PrecedenceIsTotalOrder(a, b, a);
    var index := 0;
    while index < 3
      invariant 0 <= index <= 3
      invariant forall j: nat :: j < index ==> Component(a, j) == Component(b, j)
    {
      var x, y := Value(ours[index]), Value(theirs[index]);
      assert x == Component(a, index) && y == Component(b, index);
      if x > y {
        assert FirstDifference(b, a, index);
        return Some(Newer);
      }
      if x < y {
        assert FirstDifference(a, b, index);
        return Some(Older);
      }
      index := index + 1;
    }
    assert Component(a, 0) == Component(b, 0) && Component(a, 1) == Component(b, 1);
    assert Component(a, 2) == Component(b, 2);
    return Some(Equal);
  }

  // ----- Bumping -----

  /** The next version, or `None` for an exhausted or unknown component. */
  function Bump(v: Version, component: string): Option<Version> {
    if component == "patch" then
      if v.patch == MAX_COMPONENT then None else Some(v.(patch := v.patch + 1))
    else if component == "minor" then
      if v.minor == MAX_COMPONENT then None else Some(Version(v.major, v.minor + 1, 0))
    else if component == "major" then
      if v.major == MAX_COMPONENT then None else Some(Version(v.major + 1, 0, 0))
    else None
  }

  /** The versions that a bump of this component has to leave behind. */
  predicate SameLine(v: Version, w: Version, component: string) {
    match component
    case "patch" => v == w
    case "minor" => v.major == w.major && v.minor == w.minor
    case _ => v.major == w.major
  }

  /**
   * A bump strictly increases the version and stays in range, and it skips nothing: every version
   * after `v` outside the line being left is the bumped version or comes after it.
   */
  lemma BumpIsNext(v: Version, component: string, w: Version)
    requires InRange(v) && Bump(v, component).Some?
    ensures var next := Bump(v, component).value;
            && InRange(next) && Precedes(v, next) && !SameLine(v, next, component)
            && (Precedes(v, w) && !SameLine(v, w, component) ==> w == next || Precedes(next, w))
  {
    var next := Bump(v, component).value;
    TupleOrderIsPrecedence(v, next);
    TupleOrderIsPrecedence(v, w);
    TupleOrderIsPrecedence(next, w);
  }

  /** The higher components, which a bump of this one leaves alone, are the same. */
  predicate SameAbove(v: Version, w: Version, component: string) {
    match component
    case "patch" => v.major == w.major && v.minor == w.minor
    case "minor" => v.major == w.major
    case _ => true
  }

  /**
   * A bump is refused exactly for an unknown component, or when no version in range is later, off
   * the line being left, and the same above it: the component is at its maximum.
   */
  lemma BumpsExactly(v: Version, component: string)
    requires InRange(v)
    ensures Bump(v, component).Some? <==>
            && component in {"major", "minor", "patch"}
            && exists w :: InRange(w) && Precedes(v, w) && !SameLine(v, w, component) && SameAbove(v, w, component)
    ensures Bump(v, component).Some? ==> SameAbove(v, Bump(v, component).value, component)
  {
    if Bump(v, component).Some? {
      BumpIsNext(v, component, v);
      assert SameAbove(v, Bump(v, component).value, component);
    } else if component in {"major", "minor", "patch"} {
      forall w | InRange(w) && Precedes(v, w) && !SameLine(v, w, component) && SameAbove(v, w, component)
        ensures false
      {
        TupleOrderIsPrecedence(v, w);
      }
    }
  }
}
