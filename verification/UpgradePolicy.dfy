/** The installer's upgrade decision and what it means for the installed version over many runs. */
module UpgradePolicy {
  import opened Text
  import opened Versions

  /** The installed binary, by the version text it reports when it is run. */
  datatype Binary = Missing | Present(reports: string)

  /** The managed checkout: the version text in its manifest, and its commit. */
  datatype Checkout = Checkout(version: string, commit: string)

  datatype Machine = Machine(binary: Binary, source: Option<Checkout>)

  /** One upgrade request, with what the installer observes while it handles it. */
  datatype Request = Request(
    candidate: string,
    commit: string,
    force: bool,
    updating: bool,
    incomplete: bool,
    completeAtRecheck: bool)

  datatype Decision = Die | Noop | Proceed

  // ----- Specification -----

  ghost function Higher(a: Option<Version>, b: Option<Version>): Option<Version> {
    if a.None? then b
    else if b.None? then a
    else if Precedes(a.value, b.value) then b
    else a
  }

  function BinaryVersion(m: Machine): Option<Version> {
    if m.binary.Missing? then None else Parse(m.binary.reports)
  }

  function SourceVersion(m: Machine): Option<Version> {
    if m.source.None? then None else Parse(m.source.value.version)
  }

  /** The higher of the versions that can be read. */
  ghost function Floor(m: Machine): Option<Version> {
    Higher(BinaryVersion(m), SourceVersion(m))
  }

  ghost predicate AtMost(a: Option<Version>, b: Option<Version>) {
    a.None? || (b.Some? && !Precedes(b.value, a.value))
  }

  /** The installed state gives no safe basis for a decision. */
  predicate Undecidable(m: Machine, q: Request) {
    || Parse(q.candidate).None?
    || (m.source.Some? && SourceVersion(m).None?)
    || (m.binary.Present? && BinaryVersion(m).None? && (!q.force || m.source.None?))
    || (m.binary.Missing? && m.source.None? && q.incomplete)
  }

  /** Both the binary and the checkout are at the candidate, and nothing needs repair. */
  predicate Current(m: Machine, q: Request) {
    && m.binary == Present(q.candidate)
    && m.source == Some(Checkout(q.candidate, q.commit))
    && !q.incomplete
    && (q.updating ==> q.completeAtRecheck)
  }

  ghost function Decide(m: Machine, q: Request): Decision {
    if Undecidable(m, q) then Die
    else if Floor(m).Some? && Precedes(Parse(q.candidate).value, Floor(m).value) then Die
    else if Floor(m) != Parse(q.candidate) || q.force then Proceed
    else if m.source.Some? && m.source.value.commit != q.commit then Die
    else if Current(m, q) then Noop
    else Proceed
  }

  // ----- The installer's own order of tests -----

  /**
   * The floor as the script computes it. `None` is a refusal; otherwise the comparison text, empty
   * when nothing is installed, and whether binary and checkout disagree or the binary is absent.
   */
  method ComparisonVersion(m: Machine, q: Request) returns (r: Option<(string, bool)>)
    requires m.source.Some? ==> SourceVersion(m).Some?
    ensures r.None? <==> m.binary.Present? && BinaryVersion(m).None? && (!q.force || m.source.None?)
    ensures r.Some? && r.value.0 == "" ==> Floor(m).None? && m.binary.Missing? && m.source.None?
    ensures r.Some? && r.value.0 != "" ==> Floor(m).Some? && Parse(r.value.0) == Floor(m)
    ensures r.Some? && m.source.Some? && !q.force ==> (r.value.1 <==> m.binary != Present(m.source.value.version))
    ensures r.Some? ==> (m.binary.Missing? ==> r.value.1)
  {
    var comparison := if m.source.Some? then m.source.value.version else "";
    var repair := false;
    EmptyIsNoVersion();
    if m.binary.Present? {
      if Parse(m.binary.reports).None? {
        if !q.force || m.source.None? {
          return None;
        }
        repair := true;
      } else if comparison == "" {
        comparison := m.binary.reports;
      } else {
        var relation := CompareReleaseVersions(m.binary.reports, comparison);
        ghost var b, s := BinaryVersion(m).value, SourceVersion(m).value;
        PrecedenceIsTotalOrder(b, s, b);
        if relation == Some(Newer) {
          comparison := m.binary.reports;
        }
        if m.binary.reports != m.source.value.version {
          repair := true;
        }
      }
    } else {
      repair := true;
    }
    r := Some((comparison, repair));
  }

  lemma EmptyIsNoVersion()
    ensures Parse("").None?
  {
  }

  /** Every version that can be read is at most the floor, and the floor is one of them. */
  lemma FloorIsHighest(m: Machine)
    ensures Floor(m).None? <==> BinaryVersion(m).None? && SourceVersion(m).None?
    ensures Floor(m) == BinaryVersion(m) || Floor(m) == SourceVersion(m)
    ensures AtMost(BinaryVersion(m), Floor(m)) && AtMost(SourceVersion(m), Floor(m))
  {
    HigherIsUpperBound(BinaryVersion(m), SourceVersion(m));
  }

  /**
   * The machine has a floor to measure a release by, or nothing at all is installed: a checkout is
   * readable if there is one, and so is a binary, unless force and a checkout make up for it.
   */
  ghost predicate Measurable(m: Machine, q: Request) {
    && (m.source.Some? ==> Parse(m.source.value.version).Some?)
    && (m.binary.Present? && Parse(m.binary.reports).None? ==> q.force && m.source.Some?)
    && (m.binary.Missing? && m.source.None? ==> !q.incomplete)
  }

  /** The installed release is the candidate, with its commit wherever a checkout is known. */
  ghost predicate SameRelease(m: Machine, q: Request) {
    Floor(m) == Parse(q.candidate) && (m.source.Some? ==> m.source.value.commit == q.commit)
  }

  /** The binary and the checkout both are the candidate, and nothing is found to be incomplete. */
  ghost predicate NothingToDo(m: Machine, q: Request) {
    && m.binary.Present? && m.binary.reports == q.candidate
    && m.source.Some? && m.source.value.version == q.candidate && m.source.value.commit == q.commit
    && !q.incomplete && !(q.updating && !q.completeAtRecheck)
  }

  /**
   * Exactly when a request proceeds, ends without doing anything, or is refused: a readable
   * candidate on a measurable machine proceeds when it is above the floor, or when there is none;
   * below the floor it is refused; at the floor it proceeds by force, and without force when the
   * commit is the known one and something is missing.
   */
  lemma DecidesExactly(m: Machine, q: Request)
    ensures var v, floor := Parse(q.candidate), Floor(m);
            Decide(m, q) == Proceed <==>
              && v.Some? && Measurable(m, q)
              && (floor.Some? ==>
                    || Precedes(floor.value, v.value)
                    || (floor == v && (q.force || (SameRelease(m, q) && !NothingToDo(m, q)))))
    ensures Decide(m, q) == Noop <==>
              Parse(q.candidate).Some? && !q.force && NothingToDo(m, q)
    ensures var v, floor := Parse(q.candidate), Floor(m);
            v.Some? && Measurable(m, q) && floor.Some? && Precedes(floor.value, v.value) ==>
              Decide(m, q) == Proceed
  {
    if Floor(m).Some? && Parse(q.candidate).Some? {
      PrecedenceIsTotalOrder(Floor(m).value, Parse(q.candidate).value, Floor(m).value);
      PrecedenceIsTotalOrder(Floor(m).value, Floor(m).value, Floor(m).value);
    }
    if NothingToDo(m, q) && Parse(q.candidate).Some? {
      var v := Parse(q.candidate).value;
      PrecedenceIsTotalOrder(v, v, v);
    }
  }

  method EvaluateUpgradeCandidate(m: Machine, q: Request) returns (d: Decision)
    ensures d == Decide(m, q)
    ensures d.Die? <==> || Parse(q.candidate).None? || !Measurable(m, q)
                        || (Floor(m).Some? && Precedes(Parse(q.candidate).value, Floor(m).value))
                        || (Floor(m) == Parse(q.candidate) && !q.force && !SameRelease(m, q))
    ensures d.Noop? <==> Parse(q.candidate).Some? && !q.force && NothingToDo(m, q)
  {
    DecidesExactly(m, q);
    if Parse(q.candidate).Some? && Floor(m).Some? {
      PrecedenceIsTotalOrder(Parse(q.candidate).value, Floor(m).value, Parse(q.candidate).value);
    }
    if m.source.Some? && SourceVersion(m).None? {
      return Die;
    }
    if Parse(q.candidate).None? {
      return Die;
    }
    var floor := ComparisonVersion(m, q);
    if floor.None? {
      return Die;
    }
    var (comparison, repair) := floor.value;
    if comparison == "" {
      return if q.incomplete then Die else Proceed;
    }
    var relation := CompareReleaseVersions(q.candidate, comparison);
    assert relation.Some?;
    SameTextSameVersion(q.candidate, comparison);
    PrecedenceIsTotalOrder(Floor(m).value, Parse(q.candidate).value, Floor(m).value);
    match relation.value {
      case Newer => d := Proceed;
      case Older => d := Die;
      case Equal =>
        if q.force {
          d := Proceed;
        } else if m.source.Some? && m.source.value.commit != q.commit {
          d := Die;
        } else if q.incomplete || repair {
          NotCurrent(m, q, repair);
          d := Proceed;
        } else if q.updating && !q.completeAtRecheck {
          d := Proceed;
        } else if m.source.None? {
          d := Proceed;
        } else {
          EqualFloor(m, q.candidate);
          d := Noop;
        }
    }
  }

  lemma SameTextSameVersion(s: string, t: string)
    ensures Parse(s).Some? && Parse(t).Some? ==> (s == t <==> Parse(s) == Parse(t))
  {
    if Parse(s).Some? && Parse(s) == Parse(t) {
      ParseInjective(s, t);
    }
  }

  lemma NotCurrent(m: Machine, q: Request, repair: bool)
    requires q.incomplete || repair
    requires m.source.Some? && repair ==> m.binary != Present(m.source.value.version)
    ensures !Current(m, q)
  {
  }

  /** When binary and checkout report the same text, that text is the floor's. */
  lemma EqualFloor(m: Machine, text: string)
    requires m.source.Some? && m.binary == Present(m.source.value.version)
    requires Floor(m).Some? && Floor(m) == Parse(text)
    ensures m.source.value.version == text
  {
    PrecedenceIsTotalOrder(Floor(m).value, Floor(m).value, Floor(m).value);
    ParseInjective(m.source.value.version, text);
  }

  // ----- Runs -----

  /** How a run of the installer ends. `built` is the version text the built binary reports. */
  datatype Outcome =
    | Died
    | Ended
    | Reconfigured
    | RolledBack
    | Committed(built: string)

  datatype Run = Run(request: Request, outcome: Outcome)

  /** The machine after a completed run. */
  ghost predicate Runs(m: Machine, run: Run, m': Machine) {
    var q := run.request;
    match run.outcome
    case Died => m' == m
    case Reconfigured => m' == m
    case Ended => Decide(m, q) == Noop && m' == m
    case RolledBack =>
      // A binary that was not there before may be left behind when its removal fails.
      && Decide(m, q) == Proceed && m'.source == m.source
      && (m'.binary == m.binary || (m.binary.Missing? && m'.binary == Present(q.candidate)))
    case Committed(built) =>
      // The build is refused unless the binary reports the candidate's version.
      && Decide(m, q) == Proceed && built == q.candidate
      && m' == Machine(Present(built), Some(Checkout(q.candidate, q.commit)))
  }

  ghost predicate History(states: seq<Machine>, runs: seq<Run>) {
    && |states| == |runs| + 1
    && forall i :: 0 <= i < |runs| ==> Runs(states[i], runs[i], states[i + 1])
  }

  lemma AtMostTransitive(a: Option<Version>, b: Option<Version>, c: Option<Version>)
    requires AtMost(a, b) && AtMost(b, c)
    ensures AtMost(a, c)
  {
    if a.Some? {
      PrecedenceIsTotalOrder(c.value, b.value, a.value);
      PrecedenceIsTotalOrder(c.value, a.value, b.value);
      PrecedenceIsTotalOrder(a.value, b.value, c.value);
    }
  }

  lemma HigherIsUpperBound(a: Option<Version>, b: Option<Version>)
    ensures AtMost(a, Higher(a, b)) && AtMost(b, Higher(a, b))
  {
    if a.Some? {
      PrecedenceIsTotalOrder(a.value, a.value, a.value);
    }
    if b.Some? {
      PrecedenceIsTotalOrder(b.value, b.value, b.value);
    }
    if a.Some? && b.Some? {
      PrecedenceIsTotalOrder(a.value, b.value, a.value);
    }
  }

  lemma HigherIsMonotone(a: Option<Version>, b: Option<Version>, c: Option<Version>)
    requires AtMost(a, c)
    ensures AtMost(Higher(a, b), Higher(c, b))
  {
    HigherIsUpperBound(c, b);
    if Higher(a, b) == a {
      AtMostTransitive(a, c, Higher(c, b));
    }
  }

  /** No completed run lowers the floor, with or without force. */
  lemma RunKeepsFloor(m: Machine, run: Run, m': Machine)
    requires Runs(m, run, m')
    ensures AtMost(Floor(m), Floor(m'))
  {
    HigherIsMonotone(BinaryVersion(m), SourceVersion(m), BinaryVersion(m));
    if run.outcome.RolledBack? && m.binary.Missing? {
      HigherIsMonotone(BinaryVersion(m), SourceVersion(m), BinaryVersion(m'));
    }
    if run.outcome.Committed? {
      CommitReachesCandidate(m, run, m');
      if Floor(m).Some? {
        PrecedenceIsTotalOrder(Floor(m).value, Floor(m').value, Floor(m).value);
      }
    }
  }

  lemma CommitReachesCandidate(m: Machine, run: Run, m': Machine)
    requires Runs(m, run, m') && run.outcome.Committed?
    ensures Floor(m').Some? && Floor(m') == Parse(run.request.candidate)
  {
    var v := Parse(run.request.candidate).value;
    PrecedenceIsTotalOrder(v, v, v);
  }

  /** Over any sequence of completed runs the floor never drops. */
  lemma {:induction false} FloorNeverDrops(states: seq<Machine>, runs: seq<Run>, i: nat, j: nat)
    requires History(states, runs) && i <= j < |states|
    ensures AtMost(Floor(states[i]), Floor(states[j]))
    decreases j - i
  {
    if i == j {
      HigherIsUpperBound(Floor(states[i]), None);
    } else {
      FloorNeverDrops(states, runs, i, j - 1);
      RunKeepsFloor(states[j - 1], runs[j - 1], states[j]);
      AtMostTransitive(Floor(states[i]), Floor(states[j - 1]), Floor(states[j]));
    }
  }

  /** A version lower than anything the machine ever had is refused from then on, force or not. */
  lemma DowngradeIsRefusedForever(states: seq<Machine>, runs: seq<Run>, i: nat, j: nat, q: Request)
    requires History(states, runs) && i <= j < |states|
    requires Floor(states[i]).Some? && Parse(q.candidate).Some?
    requires Precedes(Parse(q.candidate).value, Floor(states[i]).value)
    ensures Decide(states[j], q) == Die
  {
    FloorNeverDrops(states, runs, i, j);
    var c, before, after := Parse(q.candidate).value, Floor(states[i]).value, Floor(states[j]).value;
    PrecedenceIsTotalOrder(c, before, after);
    PrecedenceIsTotalOrder(before, after, c);
  }

  /** After a commit, asking for the same release again does nothing. */
  lemma CommitIsIdempotent(m: Machine, run: Run, m': Machine, q: Request)
    requires Runs(m, run, m') && run.outcome.Committed?
    requires q.candidate == run.request.candidate && q.commit == run.request.commit
    requires !q.force && !q.incomplete && (q.updating ==> q.completeAtRecheck)
    ensures Decide(m', q) == Noop
  {
    CommitReachesCandidate(m, run, m');
    var v := Parse(q.candidate).value;
    PrecedenceIsTotalOrder(v, v, v);
  }
}
