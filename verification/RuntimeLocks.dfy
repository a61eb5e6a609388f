/**
 * Runtime locks (`src/updater.rs`): the lock files of a configuration, and the protocol in which
 * any number of processes take theirs in order, without blocking, and release them again.
 */
module RuntimeLocks {
  import opened Configuration

  // ----- Lock identities -----

  const FNV_OFFSET: bv64 := 0xcbf2_9ce4_8422_2325
  const FNV_PRIME: bv64 := 0x0000_0100_0000_01b3

  function FnvStep(hash: bv64, byte: bv8): bv64 {
    (hash ^ (byte as bv64)) * FNV_PRIME
  }

  function FnvFold(hash: bv64, bytes: seq<bv8>): bv64
    decreases |bytes|
  {
    if bytes == [] then hash else FnvFold(FnvStep(hash, bytes[0]), bytes[1..])
  }

  method Fnv1aHash(bytes: seq<bv8>) returns (hash: bv64)
    ensures hash == FnvFold(FNV_OFFSET, bytes)
  {
    hash := FNV_OFFSET;
    var index := 0;
    while index < |bytes|
      invariant 0 <= index <= |bytes|
      invariant FnvFold(hash, bytes[index..]) == FnvFold(FNV_OFFSET, bytes)
    {
      assert bytes[index..][1..] == bytes[index + 1..];
      hash := FnvStep(hash, bytes[index]);
      index := index + 1;
    }
  }

  /** Three published test vectors of 64-bit FNV-1a: the empty text, "a", and "foobar". */
  lemma FnvVectors()
    ensures FnvFold(FNV_OFFSET, []) == 0xcbf2_9ce4_8422_2325
    ensures FnvFold(FNV_OFFSET, [0x61]) == 0xaf63_dc4c_8601_ec8c
    ensures FnvFold(FNV_OFFSET, [0x66, 0x6f, 0x6f, 0x62, 0x61, 0x72]) == 0x8594_4171_f739_67e8
  {
    var t: seq<bv8> := [0x66, 0x6f, 0x6f, 0x62, 0x61, 0x72];
    assert t[5..][1..] == [] && t[4..][1..] == t[5..] && t[3..][1..] == t[4..];
    assert t[2..][1..] == t[3..] && t[1..][1..] == t[2..] && t[0..] == t;
    var a: seq<bv8> := [0x61];
    assert a[1..] == [];
  }

  /** Lock identities are ASCII once the configuration is validated; other characters fold to `?`. */
  function AsciiBytes(s: string): (r: seq<bv8>)
    ensures |r| == |s| && forall i :: 0 <= i < |s| && s[i] < '\U{80}' ==> r[i] == s[i] as bv8
  {
    seq(|s|, i requires 0 <= i < |s| => if s[i] < '\U{80}' then s[i] as bv8 else 63)
  }

  function LockIdentity(r: Resource): string {
    r.zone + "\0" + TypeText(r.rtype) + "\0" + r.name
  }

  function ResourceLockHash(r: Resource): nat {
    FnvFold(FNV_OFFSET, AsciiBytes(LockIdentity(r))) as nat
  }

  /** The lock of a validated record is the hash of its zone, type and name as they are, NUL between them. */
  lemma LockHashExactly(r: RecordConfig)
    requires ValidRecord(r)
    ensures ResourceLockHash(ResourceOf(r)) ==
            FnvFold(0xcbf2_9ce4_8422_2325,
                    AsciiBytes(r.zone + "\0" + (if r.rtype.A? then "A" else "AAAA") + "\0" + r.name)) as nat
  {
    ValidRecordIsCanonical(r);
  }

  /** Position of the first NUL, or the length when there is none. */
  function FirstNul(s: string): nat {
    if s == "" || s[0] == '\0' then 0 else 1 + FirstNul(s[1..])
  }

  lemma {:induction false} FirstNulOf(a: string, x: string)
    requires '\0' !in a
    ensures FirstNul(a + "\0" + x) == |a|
  {
    if a != "" {
      FirstNulOf(a[1..], x);
      assert (a + "\0" + x)[1..] == a[1..] + "\0" + x;
    }
  }

  lemma SeparatedParts(a: string, x: string, b: string, y: string)
    requires '\0' !in a && '\0' !in b
    requires a + "\0" + x == b + "\0" + y
    ensures a == b && x == y
  {
    FirstNulOf(a, x);
    FirstNulOf(b, y);
    var s := a + "\0" + x;
    assert s[..|a|] == a && s[..|a|] == b;
    assert s[|a| + 1..] == x && s[|a| + 1..] == y;
  }

  /**
   * Validated records have equal lock identities only when they name the same resource: a NUL can
   * occur in neither name, so the separators can be found again.
   */
  lemma LockIdentityInjective(r: RecordConfig, t: RecordConfig)
    requires ValidRecord(r) && ValidRecord(t)
    requires LockIdentity(ResourceOf(r)) == LockIdentity(ResourceOf(t))
    ensures ResourceOf(r) == ResourceOf(t)
  {
    DnsNameExcludes(r.zone, false, '\0');
    DnsNameExcludes(t.zone, false, '\0');
    IdentityPartsAgree(ResourceOf(r), ResourceOf(t));
  }

  lemma IdentityPartsAgree(a: Resource, b: Resource)
    requires '\0' !in a.zone && '\0' !in b.zone
    requires LockIdentity(a) == LockIdentity(b)
    ensures a == b
  {
    var ta, tb := TypeText(a.rtype), TypeText(b.rtype);
    assert LockIdentity(a) == a.zone + "\0" + (ta + "\0" + a.name);
    assert LockIdentity(b) == b.zone + "\0" + (tb + "\0" + b.name);
    SeparatedParts(a.zone, ta + "\0" + a.name, b.zone, tb + "\0" + b.name);
    SeparatedParts(ta, a.name, tb, b.name);
    assert |TypeText(A)| != |TypeText(AAAA)|;
  }

  predicate StrictlyIncreasing(s: seq<nat>) {
    forall i, j :: 0 <= i < j < |s| ==> s[i] < s[j]
  }

  function InsertHash(h: nat, s: seq<nat>): (r: seq<nat>)
    requires StrictlyIncreasing(s)
    ensures StrictlyIncreasing(r)
    ensures forall x :: x in r <==> x == h || x in s
  {
    if s == [] then [h]
    else if h < s[0] then [h] + s
    else if h == s[0] then s
    else
      var rest := InsertHash(h, s[1..]);
      assert forall i :: 0 <= i < |rest| ==> rest[i] in rest && s[0] < rest[i];
      [s[0]] + rest
  }

  /** Sorting followed by removal of adjacent duplicates. */
  function SortedUnique(hashes: seq<nat>): (r: seq<nat>)
    ensures StrictlyIncreasing(r)
    ensures forall h :: h in r <==> h in hashes
  {
    if hashes == [] then [] else InsertHash(hashes[0], SortedUnique(hashes[1..]))
  }

  /** What follows the least element of a strictly increasing sequence. */
  lemma TailOf(a: seq<nat>, h: nat)
    requires StrictlyIncreasing(a) && a != []
    ensures StrictlyIncreasing(a[1..])
    ensures h in a[1..] <==> h in a && h != a[0]
    ensures h in a ==> a[0] <= h
  {
    if h in a[1..] {
      var i :| 0 <= i < |a[1..]| && a[1..][i] == h;
      assert a[i + 1] == h;
    }
    if h in a && h != a[0] {
      var i :| 0 <= i < |a| && a[i] == h;
      assert a[1..][i - 1] == h;
    }
  }

  /** A strictly increasing sequence is determined by its elements, so the order is forced. */
  lemma {:induction false} OrderIsForced(a: seq<nat>, b: seq<nat>)
    requires StrictlyIncreasing(a) && StrictlyIncreasing(b)
    requires forall h :: h in a <==> h in b
    ensures a == b
  {
    assert a != [] ==> a[0] in a;
    assert b != [] ==> b[0] in b;
    if a != [] && b != [] {
      TailOf(a, b[0]);
      TailOf(b, a[0]);
      forall h
        ensures h in a[1..] <==> h in b[1..]
      {
        TailOf(a, h);
        TailOf(b, h);
      }
      OrderIsForced(a[1..], b[1..]);
      assert a == [a[0]] + a[1..] && b == [b[0]] + b[1..];
    }
  }

  function ResourceHashes(records: seq<RecordConfig>): (r: seq<nat>)
    ensures |r| == |records|
    ensures forall i :: 0 <= i < |r| ==> r[i] == ResourceLockHash(ResourceOf(records[i]))
  {
    seq(|records|, i requires 0 <= i < |records| => ResourceLockHash(ResourceOf(records[i])))
  }

  /** The lock list of `for_config`, in the order in which `acquire` opens the files. */
  function LockOrder(records: seq<RecordConfig>): (r: seq<nat>)
    ensures StrictlyIncreasing(r)
    ensures forall i :: 0 <= i < |records| ==> ResourceLockHash(ResourceOf(records[i])) in r
    ensures forall h :: h in r ==> h in ResourceHashes(records)
  {
    var hashes := ResourceHashes(records);
    assert forall i :: 0 <= i < |records| ==> hashes[i] in hashes;
    SortedUnique(hashes)
  }

  // ----- The acquisition protocol -----

  /** One acquisition attempt. Dropping a partial or complete guard releases its files one by one. */
  datatype Stage =
    | Acquiring(next: nat)
    | Guarded
    | Contended(at: nat)
    | Errored
    | Released

  datatype Locks = Locks(want: seq<seq<nat>>, stage: seq<Stage>, owner: map<nat, nat>)

  datatype LockStep =
    | Take(p: nat)
    | Contend(p: nat)
    | Complete(p: nat)
    | Fail(p: nat)
    | Release(p: nat)
    | Drop(p: nat, h: nat)

  predicate WellFormed(s: Locks) {
    && |s.want| == |s.stage|
    && forall p :: 0 <= p < |s.want| ==> StrictlyIncreasing(s.want[p])
  }

  predicate Start(s: Locks) {
    && WellFormed(s)
    && s.owner == map[]
    && forall p :: 0 <= p < |s.stage| ==> s.stage[p] == Acquiring(0)
  }

  predicate AtLock(s: Locks, p: nat) {
    && p < |s.stage| && p < |s.want|
    && s.stage[p].Acquiring?
    && s.stage[p].next < |s.want[p]|
  }

  function NextLock(s: Locks, p: nat): nat
    requires AtLock(s, p)
  {
    s.want[p][s.stage[p].next]
  }

  predicate Step(s: Locks, a: LockStep, t: Locks) {
    && a.p < |s.stage| && a.p < |s.want|
    && match a
       case Take(p) =>
         && AtLock(s, p) && NextLock(s, p) !in s.owner
         && t == s.(stage := s.stage[p := Acquiring(s.stage[p].next + 1)], owner := s.owner[NextLock(s, p) := p])
       case Contend(p) =>
         && AtLock(s, p) && NextLock(s, p) in s.owner
         && t == s.(stage := s.stage[p := Contended(NextLock(s, p))])
       case Complete(p) =>
         && s.stage[p] == Acquiring(|s.want[p]|) && s.want[p] != []
         && t == s.(stage := s.stage[p := Guarded])
       case Fail(p) =>
         && s.stage[p].Acquiring?
         && t == s.(stage := s.stage[p := Errored])
       case Release(p) =>
         && s.stage[p].Guarded?
         && t == s.(stage := s.stage[p := Released])
       case Drop(p, h) =>
         && (s.stage[p].Contended? || s.stage[p].Errored? || s.stage[p].Released?)
         && h in s.owner && s.owner[h] == p
         && t == s.(owner := s.owner - {h})
  }

  function Held(s: Locks, p: nat): set<nat> {
    set h | h in s.owner && s.owner[h] == p
  }

  function FirstLocks(want: seq<nat>, k: nat): set<nat>
    requires k <= |want|
  {
    set j | 0 <= j < k :: want[j]
  }

  /** What the stage of attempt `p` says about the locks registered to it. */
  predicate Ownership(s: Locks, p: nat)
    requires WellFormed(s) && p < |s.stage|
  {
    var w := s.want[p];
    match s.stage[p]
    case Acquiring(k) => k <= |w| && Held(s, p) == FirstLocks(w, k)
    case Guarded => Held(s, p) == FirstLocks(w, |w|)
    case Contended(at) => Held(s, p) <= FirstLocks(w, |w|) && forall h :: h in Held(s, p) ==> h < at
    case _ => Held(s, p) <= FirstLocks(w, |w|)
  }

  /** Attempt `q` once held `h`, and has succeeded, is still going, or failed at a later lock. */
  predicate Passed(s: Locks, q: nat, h: nat)
    requires WellFormed(s) && q < |s.stage|
  {
    match s.stage[q]
    case Acquiring(k) => k <= |s.want[q]| && h in FirstLocks(s.want[q], k)
    case Contended(at) => h in s.want[q] && h < at
    case _ => h in s.want[q]
  }

  ghost predicate Blamed(s: Locks, p: nat)
    requires WellFormed(s) && p < |s.stage|
  {
    s.stage[p].Contended? ==> exists q: nat :: q < |s.stage| && q != p && Passed(s, q, s.stage[p].at)
  }

  ghost predicate LockInv(s: Locks) {
    && WellFormed(s)
    && (forall h :: h in s.owner ==> s.owner[h] < |s.stage|)
    && (forall p: nat :: p < |s.stage| ==> Ownership(s, p))
    && (forall p: nat :: p < |s.stage| ==> Blamed(s, p))
  }

  lemma StepKeepsOwnership(s: Locks, a: LockStep, t: Locks, p: nat)
    requires LockInv(s) && Step(s, a, t) && p < |t.stage|
    ensures WellFormed(t) && Ownership(t, p)
  {
    assert Ownership(s, p);
    if p == a.p {
      match a
      case Take(_) =>
        var k := s.stage[p].next;
        assert Held(t, p) == Held(s, p) + {NextLock(s, p)};
        assert FirstLocks(s.want[p], k + 1) == FirstLocks(s.want[p], k) + {NextLock(s, p)};
      case Drop(_, h) =>
        assert Held(t, p) == Held(s, p) - {h};
      case _ =>
        assert Held(t, p) == Held(s, p);
    } else {
      assert Held(t, p) == Held(s, p);
    }
  }

  lemma StepKeepsPassed(s: Locks, a: LockStep, t: Locks, q: nat, h: nat)
    requires LockInv(s) && Step(s, a, t) && q < |s.stage| && Passed(s, q, h)
    ensures WellFormed(t) && Passed(t, q, h)
  {
  }

  /** A contended attempt lost its next lock to a different attempt: sorted de-duplication at work. */
  lemma ContendNamesAnother(s: Locks, p: nat)
    requires LockInv(s) && AtLock(s, p) && NextLock(s, p) in s.owner
    ensures var q := s.owner[NextLock(s, p)]; q != p && q < |s.stage| && Passed(s, q, NextLock(s, p))
  {
    var h := NextLock(s, p);
    var q := s.owner[h];
    assert h !in FirstLocks(s.want[p], s.stage[p].next);
    assert Ownership(s, p);
    assert h !in Held(s, p);
    assert Ownership(s, q);
    assert h in Held(s, q);
  }

  lemma StepKeepsLockInv(s: Locks, a: LockStep, t: Locks)
    requires LockInv(s) && Step(s, a, t)
    ensures LockInv(t) && t.want == s.want
  {
    forall p: nat | p < |t.stage|
      ensures Ownership(t, p) && Blamed(t, p)
    {
      StepKeepsOwnership(s, a, t, p);
      if t.stage[p].Contended? {
        var h := t.stage[p].at;
        var q: nat;
        if s.stage[p].Contended? {
          assert Blamed(s, p);
          q :| q < |s.stage| && q != p && Passed(s, q, h);
        } else {
          ContendNamesAnother(s, p);
          q := s.owner[h];
        }
        StepKeepsPassed(s, a, t, q, h);
      }
    }
  }

  ghost predicate CanStep(s: Locks, t: Locks) {
    exists a :: Step(s, a, t)
  }

  ghost predicate StepAt(run: seq<Locks>, i: nat)
    requires i + 1 < |run|
  {
    CanStep(run[i], run[i + 1])
  }

  ghost predicate LockRun(run: seq<Locks>) {
    && |run| > 0
    && Start(run[0])
    && forall i {:trigger StepAt(run, i)} :: 0 <= i < |run| - 1 ==> StepAt(run, i)
  }

  lemma {:induction false} RunKeepsLockInv(run: seq<Locks>, n: nat)
    requires LockRun(run) && n < |run|
    ensures LockInv(run[n]) && run[n].want == run[0].want
  {
    if n > 0 {
      RunKeepsLockInv(run, n - 1);
      assert StepAt(run, n - 1);
      var a :| Step(run[n - 1], a, run[n]);
      StepKeepsLockInv(run[n - 1], a, run[n]);
    }
  }

  predicate Succeeded(st: Stage) {
    st.Guarded? || st.Released?
  }

  /** No attempt is still running, and none failed for any reason but contention. */
  predicate Settled(s: Locks) {
    forall p :: 0 <= p < |s.stage| ==> !s.stage[p].Acquiring? && !s.stage[p].Errored?
  }

  /** Two complete guards never share a lock, so they cover different resources. */
  lemma GuardsAreDisjoint(run: seq<Locks>, n: nat, p: nat, q: nat)
    requires LockRun(run) && n < |run| && p != q
    requires p < |run[n].stage| && q < |run[n].stage| && p < |run[0].want| && q < |run[0].want|
    requires run[n].stage[p].Guarded? && run[n].stage[q].Guarded?
    ensures FirstLocks(run[0].want[p], |run[0].want[p]|) !! FirstLocks(run[0].want[q], |run[0].want[q]|)
  {
    RunKeepsLockInv(run, n);
    assert Ownership(run[n], p) && Ownership(run[n], q);
    assert Held(run[n], p) !! Held(run[n], q);
  }

  /** Every contended attempt was beaten by one that succeeded or that failed at a higher lock. */
  lemma ContentionHasACause(run: seq<Locks>, p: nat)
    requires LockRun(run) && Settled(run[|run| - 1])
    requires p < |run[|run| - 1].stage| && run[|run| - 1].stage[p].Contended?
    ensures var s := run[|run| - 1];
            exists q: nat :: q < |s.stage| && q != p &&
              (Succeeded(s.stage[q]) || (s.stage[q].Contended? && s.stage[q].at > s.stage[p].at))
  {
    var s := run[|run| - 1];
    RunKeepsLockInv(run, |run| - 1);
    assert Blamed(s, p);
    var q: nat :| q < |s.stage| && q != p && Passed(s, q, s.stage[p].at);
    assert Succeeded(s.stage[q]) || (s.stage[q].Contended? && s.stage[q].at > s.stage[p].at);
  }

  lemma {:induction false} HighestContention(s: Locks, n: nat) returns (p: nat)
    requires 0 < n <= |s.stage|
    requires forall i :: 0 <= i < n ==> s.stage[i].Contended?
    ensures p < n && forall i :: 0 <= i < n ==> s.stage[i].at <= s.stage[p].at
  {
    if n == 1 {
      p := 0;
    } else {
      p := HighestContention(s, n - 1);
      if s.stage[n - 1].at > s.stage[p].at {
        p := n - 1;
      }
    }
  }

  /** No mutual starvation: when contention is the only cause of failure, somebody succeeds. */
  lemma SomeAttemptSucceeds(run: seq<Locks>)
    requires LockRun(run) && Settled(run[|run| - 1])
    requires |run[0].stage| > 0
    ensures var s := run[|run| - 1]; exists p :: 0 <= p < |s.stage| && Succeeded(s.stage[p])
  {
    var s := run[|run| - 1];
    RunKeepsLockInv(run, |run| - 1);
    assert |s.stage| > 0;
    if forall p :: 0 <= p < |s.stage| ==> !Succeeded(s.stage[p]) {
      var top := HighestContention(s, |s.stage|);
      ContentionHasACause(run, top);
      assert false;
    }
  }

  /** A process alone with its locks never contends, even when two of its records hash alike. */
  lemma LoneProcessNeverContends(run: seq<Locks>, n: nat)
    requires LockRun(run) && |run[0].stage| == 1 && n < |run|
    ensures |run[n].stage| == 1 && !run[n].stage[0].Contended?
  {
    RunKeepsLockInv(run, n);
    assert Blamed(run[n], 0);
  }
}
