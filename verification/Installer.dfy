/** The installer's transaction: snapshot, change, then commit or roll back (`cirrusync-install.sh`). */
module Installer {
  import opened Text
  import opened SourceTrees

  datatype Path = BinaryPath | UnitPath | OverridePath | ConfigPath | TokenPath

  datatype Enablement = Enabled | EnabledRuntime | Disabled

  type Files = map<Path, string>

  /** What a transaction does to the machine before it promotes the source. */
  datatype Change =
    | Write(path: Path, contents: string)
    | Delete(path: Path)
    | SetService(active: bool, enablement: Enablement)

  /**
   * Which steps of a rollback fail, and what they leave behind. A failed removal of a path that
   * was not there before is not noticed by the script. `other` stands for the directory and
   * account steps.
   */
  datatype RollbackFaults = RollbackFaults(
    quiesce: bool,
    busyAccount: bool,
    paths: set<Path>,
    source: RestoreFaults,
    other: bool,
    reload: bool,
    enablement: Option<Enablement>,
    inspect: bool,
    restart: bool,
    unhealthy: bool,
    requiesce: bool,
    leftActive: bool,
    purge: Option<Files>)

  /**
   * What fails at the start: the check of the directory's access list, the snapshot, reading the
   * service's state, stopping it, or a process of its account that is still there.
   */
  datatype BeginFaults = BeginFaults(acl: bool, snapshot: bool, readService: bool, stop: bool, busyAccount: bool)

  /** The transaction is never opened. */
  predicate Unopened(f: BeginFaults, systemd: bool) {
    f.acl || f.snapshot || (systemd && f.readService)
  }

  predicate ServiceFault(f: RollbackFaults, wasActive: bool) {
    f.reload || f.enablement.Some? || (wasActive && (f.inspect || f.restart || f.unhealthy))
  }

  /** The state to which a rollback has to return. */
  datatype Prior = Prior(files: Files, source: Source, active: bool, enablement: Enablement)

  /** No step fails that restores anything, once the service is quiet. */
  predicate Restorable(f: RollbackFaults, systemd: bool, prior: Prior, source: Source) {
    && !f.other && (systemd ==> !ServiceFault(f, prior.active))
    && f.paths !! prior.files.Keys
    && RestoreSource(source, f.source).1
  }

  predicate Quiet(f: RollbackFaults, systemd: bool) {
    !f.busyAccount && (systemd ==> !f.quiesce)
  }

  /** No step that the rollback checks fails. */
  predicate Undisturbed(f: RollbackFaults, systemd: bool, prior: Prior, source: Source) {
    Quiet(f, systemd) && Restorable(f, systemd, prior, source) && f.purge.None?
  }

  /**
   * The recovery data after a rollback that fails: whole, unless its removal was all that failed,
   * in which case it is whatever the removal left.
   */
  function Kept(f: RollbackFaults, systemd: bool, prior: Prior, source: Source): Option<Files> {
    if Quiet(f, systemd) && Restorable(f, systemd, prior, source) then f.purge else Some(prior.files)
  }

  /** Faults under which a rollback fails although it has restored everything, and its data is gone. */
  lemma FailedRollbackCanLoseItsData(prior: Prior, systemd: bool)
    requires prior.files != map[] && Untouched(prior.source) && Backup !in prior.source.trees
    ensures var r := RestoreFaults(false, false, false, false, false, "");
            var f := RollbackFaults(
              false, false, {}, r, false, false, None, false, false, false, false, false, Some(map[]));
            && !Undisturbed(f, systemd, prior, prior.source)
            && Kept(f, systemd, prior, prior.source) == Some(map[]) != Some(prior.files)
  {
  }

  /** There is a candidate, and no move of its promotion fails. */
  predicate CanPromote(s: Source, p: PromoteFaults) {
    Staging in s.trees && !p.moveNew && (SourceDir in s.trees ==> !p.moveOld)
  }

  /** No step of the rollback fails. */
  predicate Faultless(f: RollbackFaults) {
    && !f.quiesce && !f.busyAccount && f.paths == {} && !f.other && !f.reload && f.enablement.None?
    && !f.inspect && !f.restart && !f.unhealthy && f.purge.None?
    && !f.source.setAside && !f.source.putBack && !f.source.removeAside && !f.source.removeNew
  }

  /** The files after these changes. */
  function Changed(files: Files, changes: seq<Change>): Files {
    if changes == [] then files
    else
      var before := Changed(files, changes[..|changes| - 1]);
      match changes[|changes| - 1]
      case Write(path, contents) => before[path := contents]
      case Delete(path) => before - {path}
      case SetService(_, _) => before
  }

  /** The change writes or deletes this path. */
  predicate Touches(change: Change, p: Path) {
    (change.Write? || change.Delete?) && change.path == p
  }

  /** A path that no change touches is as before. */
  lemma {:induction false} UntouchedPath(files: Files, changes: seq<Change>, p: Path)
    requires forall i :: 0 <= i < |changes| ==> !Touches(changes[i], p)
    ensures SameAt(Changed(files, changes), files, p)
  {
    if changes != [] {
      UntouchedPath(files, changes[..|changes| - 1], p);
      assert !Touches(changes[|changes| - 1], p);
    }
  }

  /** Any other is as the last change that touches it leaves it. */
  lemma {:induction false} LastChangeDecides(files: Files, changes: seq<Change>, p: Path, i: nat)
    requires i < |changes| && Touches(changes[i], p) && forall j :: i < j < |changes| ==> !Touches(changes[j], p)
    ensures if changes[i].Delete? then p !in Changed(files, changes)
            else p in Changed(files, changes) && Changed(files, changes)[p] == changes[i].contents
  {
    if i < |changes| - 1 {
      LastChangeDecides(files, changes[..|changes| - 1], p, i);
      assert !Touches(changes[|changes| - 1], p);
    }
  }

  /** Whether the service is active and enabled after these changes: as the last of them set it, if any does. */
  function Serviced(active: bool, enablement: Enablement, changes: seq<Change>): (bool, Enablement) {
    if changes == [] then (active, enablement)
    else
      match changes[|changes| - 1]
      case SetService(a, e) => (a, e)
      case _ => Serviced(active, enablement, changes[..|changes| - 1])
  }

  lemma ServicedSnoc(active: bool, enablement: Enablement, changes: seq<Change>, change: Change)
    ensures Serviced(active, enablement, changes + [change]) ==
            if change.SetService? then (change.active, change.enablement)
            else Serviced(active, enablement, changes)
  {
    assert (changes + [change])[..|changes|] == changes;
  }

  /** Every path that existed has its contents again. */
  predicate FilesBack(files: Files, prior: Files) {
    forall p :: p in prior ==> p in files && files[p] == prior[p]
  }

  lemma ChangedSnoc(files: Files, changes: seq<Change>, change: Change)
    ensures Changed(files, changes + [change]) == Changed(Changed(files, changes), [change])
  {
    assert (changes + [change])[..|changes|] == changes;
    assert [change][..0] == [];
  }

  /** The two agree about this path. */
  predicate SameAt(a: Files, b: Files, p: Path) {
    if p in a then p in b && a[p] == b[p] else p !in b
  }

  /** The paths in `tried` are as in the snapshot, except those that failed; the rest are as before. */
  predicate Restored(after: Files, before: Files, saved: Files, failing: set<Path>, tried: set<Path>) {
    forall p :: SameAt(after, if p in tried && p !in failing then saved else before, p)
  }

  const ALL_PATHS := {TokenPath, ConfigPath, BinaryPath, UnitPath, OverridePath}

  lemma EveryPath(p: Path)
    ensures p in ALL_PATHS
  {
    match p {
      case TokenPath =>
      case ConfigPath =>
      case BinaryPath =>
      case UnitPath =>
      case OverridePath =>
    }
  }

  lemma RestoredMeans(after: Files, before: Files, saved: Files, failing: set<Path>)
    requires Restored(after, before, saved, failing, ALL_PATHS) && failing !! saved.Keys
    ensures FilesBack(after, saved)
    ensures after.Keys == saved.Keys + (before.Keys * failing)
    ensures forall p :: p in after && p !in saved ==> p in before && after[p] == before[p]
  {
    forall p: Path
      ensures p in after <==> p in saved.Keys + (before.Keys * failing)
      ensures p in saved ==> p in after && after[p] == saved[p]
      ensures p in after && p !in saved ==> p in before && after[p] == before[p]
    {
      EveryPath(p);
      assert SameAt(after, if p in ALL_PATHS && p !in failing then saved else before, p);
    }
  }

  /** The files are exactly the prior ones unless the removal of a new file failed. */
  lemma LeftoversExactly(after: Files, before: Files, saved: Files, failing: set<Path>)
    requires FilesBack(after, saved) && after.Keys == saved.Keys + (before.Keys * failing)
    requires failing !! saved.Keys
    ensures after == saved <==> before.Keys !! failing
  {
    assert before.Keys !! failing ==> after.Keys == saved.Keys;
  }

  datatype Ending = Died | Committed | RolledBack | RollbackFailed

  class Machine {
    const systemd: bool
    var files: Files
    var source: Source
    var active: bool
    var enablement: Enablement

    var transactionActive: bool
    var snapshot: Option<Files>
    var preserveRollback: bool
    var serviceWasActive: bool
    var enablementBefore: Enablement

    ghost var prior: Prior
    ghost var restarts: nat

    /** The prior state is recorded, and the source is where some part of a promotion leaves it. */
    ghost predicate Recorded()
      reads this
    {
      && snapshot == Some(prior.files)
      && Untouched(prior.source) && Backup !in prior.source.trees
      && exists promoting, f :: source == Reached(prior.source, promoting, f)
    }

    /** What holds from the start of a transaction until its commit or rollback. */
    ghost predicate InTransaction()
      reads this
    {
      && transactionActive && Recorded()
      && (systemd ==> serviceWasActive == prior.active && enablementBefore == prior.enablement)
      && (!systemd ==> active == prior.active && enablement == prior.enablement)
    }

    /** The service is again as it was found. */
    ghost predicate ServiceBack()
      reads this
    {
      active == prior.active && enablement == prior.enablement
    }

    /** `begin_transaction`: what fails before the transaction is open leaves everything as it was. */
    method Begin(f: BeginFaults) returns (ok: bool)
      requires !transactionActive && snapshot.None? && Untouched(source) && Backup !in source.trees
      modifies this
      ensures files == old(files) && source == old(source) && enablement == old(enablement)
      ensures prior == Prior(old(files), old(source), old(active), old(enablement)) && restarts == old(restarts)
      ensures ok <==> !Unopened(f, systemd) && !(systemd && old(active) && f.stop) && !f.busyAccount
      ensures Unopened(f, systemd) ==> !transactionActive && snapshot.None? && active == old(active)
      ensures !Unopened(f, systemd) ==> InTransaction() && (ok && systemd ==> !active)
    {
      prior := Prior(files, source, active, enablement);
      if f.acl {
        return false;
      }
      preserveRollback := false;
      if f.snapshot {
        return false;
      }
      snapshot := Some(files);
      serviceWasActive, enablementBefore := false, Disabled;
      if systemd {
        if f.readService {
          // The exit handler removes the recovery data of a transaction that was never open.
          snapshot := None;
          return false;
        }
        serviceWasActive, enablementBefore := active, enablement;
      }
      transactionActive := true;
      assert source == Reached(prior.source, false, PromoteFaults(false, false));
      if serviceWasActive {
        if f.stop {
          return false;
        }
        active := false;
      }
      return !f.busyAccount;
    }

    /** One change of a transaction; service changes need systemd. */
    method Apply(change: Change)
      requires InTransaction()
      modifies this`files, this`active, this`enablement
      ensures InTransaction()
      ensures files == Changed(old(files), [change])
      ensures systemd && change.SetService? ==> active == change.active && enablement == change.enablement
      ensures !(systemd && change.SetService?) ==> active == old(active) && enablement == old(enablement)
    {
      assert [change][..0] == [];
      match change {
        case Write(path, contents) => files := files[path := contents];
        case Delete(path) => files := files - {path};
        case SetService(a, e) =>
          if systemd {
            active, enablement := a, e;
          }
      }
    }

    method PromoteSource(f: PromoteFaults) returns (ok: bool)
      modifies this`source
      ensures (source, ok) == Promote(old(source), f)
    {
      if Staging !in source.trees {
        return false;
      }
      source := source.(hadExisting := false, backupNamed := true);
      if Backup in source.trees {
        return false;
      }
      if SourceDir in source.trees {
        source := source.(hadExisting := true);
        if f.moveOld {
          return false;
        }
        source := Move(source, SourceDir, Backup);
      }
      if f.moveNew {
        return false;
      }
      source := Move(source, Staging, SourceDir).(promoted := true);
      return true;
    }

    method RestoreSourceTree(f: RestoreFaults) returns (ok: bool)
      modifies this`source
      ensures (source, ok) == RestoreSource(old(source), f)
    {
      ok := true;
      if source.backupNamed && Backup in source.trees {
        if SetAside in source.trees {
          return false;
        }
        if SourceDir in source.trees {
          if f.setAside {
            return false;
          }
          source := Move(source, SourceDir, SetAside);
        }
        if !f.putBack {
          source := Move(source, Backup, SourceDir).(backupNamed := false);
          if SetAside in source.trees {
            if f.removeAside {
              source := source.(trees := source.trees[SetAside := f.debris]);
              return false;
            }
            source := Remove(source, SetAside);
          }
        } else {
          ok := false;
          if SetAside in source.trees && !f.undo {
            source := Move(source, SetAside, SourceDir);
          }
        }
      } else if !source.hadExisting && source.promoted {
        if f.removeNew {
          source := source.(trees := source.trees[SourceDir := f.debris]);
          return false;
        }
        source := Remove(source, SourceDir);
      }
    }

    /** `restore_snapshot`: the removal of a new path is attempted, but its outcome is not checked. */
    method RestoreSnapshot(path: Path, failing: set<Path>, ghost before: Files, ghost tried: set<Path>)
      returns (ok: bool)
      requires snapshot.Some? && path !in tried
      requires Restored(files, before, snapshot.value, failing, tried)
      modifies this`files
      ensures Restored(files, before, snapshot.value, failing, tried + {path})
      ensures ok <==> path !in failing || path !in snapshot.value
    {
      var fails := path in failing;
      ok := true;
      if path !in snapshot.value {
        if !fails {
          files := files - {path};
        }
      } else if fails {
        ok := false;
      } else {
        files := files[path := snapshot.value[path]];
      }
      forall p
        ensures SameAt(files, if p in tried + {path} && p !in failing then snapshot.value else before, p)
      {
        assert SameAt(old(files), if p in tried && p !in failing then snapshot.value else before, p);
      }
    }

    /** The five restorations, in the order of the rollback. */
    method RestoreFiles(failing: set<Path>) returns (ok: bool)
      requires snapshot.Some?
      modifies this`files
      ensures ok <==> failing !! snapshot.value.Keys
      ensures Restored(files, old(files), snapshot.value, failing, ALL_PATHS)
    {
      ghost var before := files;
      var token := RestoreSnapshot(TokenPath, failing, before, {});
      var config := RestoreSnapshot(ConfigPath, failing, before, {TokenPath});
      var binary := RestoreSnapshot(BinaryPath, failing, before, {TokenPath, ConfigPath});
      var unit := RestoreSnapshot(UnitPath, failing, before, {TokenPath, ConfigPath, BinaryPath});
      var override := RestoreSnapshot(OverridePath, failing, before, {TokenPath, ConfigPath, BinaryPath, UnitPath});
      ok := token && config && binary && unit && override;
      assert {TokenPath, ConfigPath, BinaryPath, UnitPath} + {OverridePath} == ALL_PATHS;
      forall p: Path | p in failing && p in snapshot.value
        ensures !ok
      {
        EveryPath(p);
      }
    }

    lemma TreeIsWhole()
      requires Recorded()
      ensures SourceDir in prior.source.trees ==> WholeAt(source, prior.source.trees[SourceDir])
    {
      var promoting, p :| source == Reached(prior.source, promoting, p);
      if SourceDir in prior.source.trees {
        PreviousTreeSurvives(prior.source, promoting, p, RestoreFaults(false, false, false, false, false, ""));
      }
    }

    lemma NothingDisturbs(f: RollbackFaults)
      requires Recorded() && Faultless(f) && SetAside !in prior.source.trees
      ensures Undisturbed(f, systemd, prior, source)
    {
      var promoting, p :| source == Reached(prior.source, promoting, p);
      FaultlessRestorationSucceeds(prior.source, promoting, p, f.source);
    }

    /** The files and the source trees. */
    method RestoreManaged(failing: set<Path>, f: RestoreFaults) returns (ok: bool)
      requires Recorded()
      modifies this`files, this`source
      ensures ok <==> failing !! prior.files.Keys && RestoreSource(old(source), f).1
      ensures ok ==> FilesBack(files, prior.files) && SamePlaces(source, prior.source)
      ensures ok ==> files.Keys == prior.files.Keys + (old(files).Keys * failing)
      ensures ok ==> forall p :: p in files && p !in prior.files ==> p in old(files) && files[p] == old(files)[p]
      ensures SourceDir in prior.source.trees ==> WholeAt(source, prior.source.trees[SourceDir])
    {
      ghost var promoting, p :| source == Reached(prior.source, promoting, p);
      if SourceDir in prior.source.trees {
        PreviousTreeSurvives(prior.source, promoting, p, f);
      }
      var filesOk := RestoreFiles(failing);
      var sourceOk := RestoreSourceTree(f);
      if filesOk {
        RestoredMeans(files, old(files), prior.files, failing);
      }
      if sourceOk {
        SuccessRestoresTrees(prior.source, promoting, p, f);
      }
      ok := filesOk && sourceOk;
    }

    /** The service part of the rollback. A restart is issued only if nothing has failed so far. */
    method RestoreService(f: RollbackFaults, failedBefore: bool) returns (failed: bool)
      requires !active
      modifies this`active, this`enablement, this`restarts
      ensures failed <==> failedBefore || ServiceFault(f, serviceWasActive)
      ensures failedBefore ==> restarts == old(restarts)
      ensures !failed ==> restarts == old(restarts) + if serviceWasActive then 1 else 0
      ensures !failed ==> active == serviceWasActive && enablement == enablementBefore
    {
      failed := failedBefore || f.reload;
      if f.enablement.Some? {
        enablement := f.enablement.value;
        failed := true;
      } else {
        enablement := enablementBefore;
      }
      if serviceWasActive && !failed {
        if f.inspect {
          failed := true;
        } else {
          restarts := restarts + 1;
          active := true;
          if f.restart || f.unhealthy {
            failed := true;
            active := f.requiesce && f.leftActive;
          }
        }
      }
    }

    /**
     * Everything is as recorded, except that new files whose removal failed are still there, as
     * they were in `before`.
     */
    ghost predicate AllBack(before: Files, failing: set<Path>)
      reads this
    {
      && FilesBack(files, prior.files) && SamePlaces(source, prior.source) && ServiceBack()
      && files.Keys == prior.files.Keys + (before.Keys * failing)
      && forall p :: p in files && p !in prior.files ==> p in before && files[p] == before[p]
    }

    /** All restoring steps, once the service is quiet. */
    method RestoreEverything(f: RollbackFaults) returns (failed: bool)
      requires Recorded() && (systemd ==> !active)
      requires systemd ==> serviceWasActive == prior.active && enablementBefore == prior.enablement
      requires !systemd ==> active == prior.active && enablement == prior.enablement
      modifies this`files, this`source, this`active, this`enablement, this`restarts
      ensures !failed <==> Restorable(f, systemd, prior, old(source))
      ensures !failed ==> AllBack(old(files), f.paths)
      ensures SourceDir in prior.source.trees ==> WholeAt(source, prior.source.trees[SourceDir])
      ensures restarts > old(restarts) ==> FilesBack(files, prior.files) && SamePlaces(source, prior.source)
    {
      var restored := RestoreManaged(f.paths, f.source);
      failed := !restored || f.other;
      if systemd {
        failed := RestoreService(f, failed);
      }
    }

    /**
     * `rollback_transaction`.
     *
     * If it reports success, every file that existed is restored, the only other managed files
     * are new ones whose removal failed, the source trees are where they were, and the service is
     * as active and as enabled as it was. If it does not, the recovery data is kept whole, unless
     * all that failed was its removal after everything had been restored. In any case the previous
     * source tree is whole, and a restart is issued only on restored files and trees.
     */
    method Rollback(f: RollbackFaults) returns (ok: bool)
      requires InTransaction()
      modifies this
      ensures ok <==> Undisturbed(f, systemd, old(prior), old(source))
      ensures !transactionActive && prior == old(prior)
      ensures Quiet(f, systemd) && Restorable(f, systemd, old(prior), old(source)) ==> AllBack(old(files), f.paths)
      ensures if ok then snapshot.None? else preserveRollback && snapshot == Kept(f, systemd, old(prior), old(source))
      ensures SourceDir in prior.source.trees ==> WholeAt(source, prior.source.trees[SourceDir])
      ensures restarts > old(restarts) ==> FilesBack(files, prior.files) && SamePlaces(source, prior.source)
      ensures !Quiet(f, systemd) ==> files == old(files) && source == old(source)
    {
      transactionActive := false;
      TreeIsWhole();
      if systemd {
        if f.quiesce {
          active := active && f.leftActive;
          preserveRollback := true;
          return false;
        }
        active := false;
      }
      if f.busyAccount {
        preserveRollback := true;
        return false;
      }
      var failed := RestoreEverything(f);
      if failed {
        preserveRollback := true;
        return false;
      }
      snapshot := f.purge;
      preserveRollback := preserveRollback || f.purge.Some?;
      return f.purge.None?;
    }

    /** `commit_transaction`: nothing that fails from here on leads back to a rollback. */
    method Commit(purgeBackup: Option<string>, purgeSnapshot: Option<Files>)
      requires InTransaction()
      modifies this`transactionActive, this`source, this`snapshot, this`preserveRollback
      ensures !transactionActive
      ensures forall p :: p != Backup ==>
                (p in source.trees <==> p in old(source).trees)
                && (p in source.trees ==> source.trees[p] == old(source).trees[p])
      ensures purgeBackup.None? ==> source.backupNamed ==> Backup !in source.trees
      ensures !old(source).backupNamed ==> source == old(source)
      ensures snapshot == purgeSnapshot
    {
      transactionActive := false;
      if source.backupNamed && Backup in source.trees {
        if purgeBackup.None? {
          source := Remove(source, Backup).(backupNamed := false);
        } else {
          source := source.(trees := source.trees[Backup := purgeBackup.value]);
        }
      }
      snapshot := purgeSnapshot;
      if purgeSnapshot.Some? {
        preserveRollback := true;
      }
    }

    /** The exit handler: roll back an open transaction, and drop recovery data nobody needs. */
    method Cleanup(f: RollbackFaults) returns (ok: bool)
      requires InTransaction()
      modifies this
      ensures ok <==> Undisturbed(f, systemd, old(prior), old(source))
      ensures !transactionActive && prior == old(prior)
      ensures Quiet(f, systemd) && Restorable(f, systemd, old(prior), old(source)) ==> AllBack(old(files), f.paths)
      ensures ok ==> files.Keys <= prior.files.Keys + f.paths && (files == prior.files <==> old(files).Keys !! f.paths)
      ensures !ok ==> snapshot == Kept(f, systemd, old(prior), old(source))
      ensures SourceDir in prior.source.trees ==> WholeAt(source, prior.source.trees[SourceDir])
      ensures restarts > old(restarts) ==> FilesBack(files, prior.files) && SamePlaces(source, prior.source)
    {
      ok := Rollback(f);
      if ok {
        LeftoversExactly(files, old(files), prior.files, f.paths);
      }
      if !preserveRollback {
        snapshot := None;
      }
    }

    /** The steps between opening and closing a transaction, up to the first that fails. */
    method Perform(upgrade: bool, changes: seq<Change>, stop: nat, p: PromoteFaults) returns (ok: bool, ghost made: nat)
      requires InTransaction() && files == prior.files && source == prior.source
      modifies this`files, this`source, this`active, this`enablement
      ensures InTransaction()
      ensures made <= |changes| && files == Changed(prior.files, changes[..made])
      ensures systemd ==> (active, enablement) == Serviced(old(active), old(enablement), changes[..made])
      ensures ok <==> stop >= |changes| && (upgrade ==> CanPromote(prior.source, p))
      ensures ok ==> made == |changes| && source == if upgrade then Promote(prior.source, p).0 else prior.source
    {
      made := 0;
      var i := 0;
      assert changes[..0] == [];
      while i < |changes| && i != stop
        invariant 0 <= i <= |changes| && i <= stop
        invariant files == Changed(prior.files, changes[..i])
        invariant systemd ==> (active, enablement) == Serviced(old(active), old(enablement), changes[..i])
        invariant InTransaction() && source == prior.source
      {
        ChangedSnoc(prior.files, changes[..i], changes[i]);
        ServicedSnoc(old(active), old(enablement), changes[..i], changes[i]);
        assert changes[..i + 1] == changes[..i] + [changes[i]];
        Apply(changes[i]);
        i := i + 1;
      }
      made := i;
      ok := i == |changes|;
      if ok && upgrade {
        PromotesExactly(source, p);
        ok := PromoteSource(p);
        assert source == Reached(prior.source, true, p);
      }
    }

    /**
     * A whole run: any changes, stopped by a failure before change number `stop`, in the promotion,
     * or not at all.
     */
    method Run(
        upgrade: bool, changes: seq<Change>, stop: nat, b: BeginFaults, p: PromoteFaults,
        f: RollbackFaults, purgeBackup: Option<string>, purgeSnapshot: Option<Files>)
      returns (end: Ending, ghost made: nat)
      requires !transactionActive && snapshot.None? && Untouched(source) && Backup !in source.trees
      modifies this
      ensures prior == Prior(old(files), old(source), old(active), old(enablement)) && !transactionActive
      ensures end.Died? <==> Unopened(b, systemd)
      ensures end.Committed? <==>
                && !Unopened(b, systemd) && !(systemd && old(active) && b.stop) && !b.busyAccount && stop >= |changes|
                && (upgrade ==> Staging in old(source).trees && !p.moveNew)
                && (upgrade && SourceDir in old(source).trees ==> !p.moveOld)
      ensures end.Committed? ==> files == Changed(old(files), changes) && made == |changes|
      ensures end.Committed? && systemd ==> (active, enablement) == Serviced(false, old(enablement), changes)
      ensures end.Committed? && !systemd ==> active == old(active) && enablement == old(enablement)
      ensures end.Died? ==> files == old(files) && source == old(source) && ServiceBack()
      ensures end.RolledBack? ==> FilesBack(files, old(files)) && SamePlaces(source, old(source)) && ServiceBack()
      ensures end.RolledBack? ==> files.Keys <= old(files).Keys + f.paths && (f.paths == {} ==> files == old(files))
      ensures made <= |changes|
      ensures Faultless(f) && SetAside !in old(source).trees ==> !end.RollbackFailed?
      ensures end.RolledBack? ==> forall q :: q in files && q !in old(files) ==>
                q in Changed(old(files), changes[..made]) && files[q] == Changed(old(files), changes[..made])[q]
      ensures end.RollbackFailed? && f.purge.None? ==> snapshot == Some(old(files))
      ensures end.RollbackFailed? && snapshot != Some(old(files)) ==>
                && snapshot == f.purge
                && FilesBack(files, old(files)) && SamePlaces(source, old(source)) && ServiceBack()
      ensures !end.Committed? && SourceDir in old(source).trees ==> WholeAt(source, old(source).trees[SourceDir])
      ensures end.Committed? && upgrade ==>
                && Staging in old(source).trees
                && SourceDir in source.trees && source.trees[SourceDir] == old(source).trees[Staging]
      ensures end.Committed? && !upgrade ==> source == old(source)
      ensures restarts > old(restarts) ==>
                !end.Committed? && FilesBack(files, old(files)) && SamePlaces(source, old(source))
    {
      made := 0;
      assert changes[..0] == [];
      var ok := Begin(b);
      if !transactionActive {
        return Died, 0;
      }
      if ok {
        ok, made := Perform(upgrade, changes, stop, p);
      }
      if ok {
        assert changes[..made] == changes;
        Commit(purgeBackup, purgeSnapshot);
        return Committed, made;
      }
      if Faultless(f) && SetAside !in prior.source.trees {
        NothingDisturbs(f);
      }
      var restored := Cleanup(f);
      end := if restored then RolledBack else RollbackFailed;
    }
  }

  /**
   * A rollback that reports success and leaves a new file behind: a binary is installed where there
   * was none, a later step fails, and so does the removal of the binary.
   */
  method SuccessCanLeaveNewFile(m: Machine) returns (ok: bool)
    requires !m.transactionActive && m.snapshot.None? && Untouched(m.source) && Backup !in m.source.trees
    requires BinaryPath !in m.files
    modifies m
    ensures ok && BinaryPath in m.files && BinaryPath !in old(m.files)
  {
    var restore := RestoreFaults(false, false, false, false, false, "");
    var began := m.Begin(BeginFaults(false, false, false, false, false));
    ghost var prior, before := m.prior, m.source;
    m.Apply(Write(BinaryPath, "new"));
    assert [Write(BinaryPath, "new")][..0] == [];
    SourceUntouchedRestores(prior.source, restore);
    ok := m.Rollback(RollbackFaults(
      false, false, {BinaryPath}, restore, false, false, None, false, false, false, false, false, None));
  }

  lemma SourceUntouchedRestores(s: Source, f: RestoreFaults)
    requires Untouched(s)
    ensures RestoreSource(s, f).1
  {
  }
}
