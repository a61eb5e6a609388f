/** One upgrade from decision to end (`cirrusync-install.sh`): the installer's run as a step of the policy. */
module UpgradeRuns {
  import opened Text
  import opened SourceTrees
  import Installer
  import Policy = UpgradePolicy

  /** How the version text of a binary, and the version text and commit of a tree, are read. */
  datatype Reader = Reader(reports: string -> string, checkout: string -> Policy.Checkout)

  /** The machine as the policy sees it. */
  function Seen(rd: Reader, files: Installer.Files, source: Source): Policy.Machine {
    Policy.Machine(
      if Installer.BinaryPath in files then Policy.Present(rd.reports(files[Installer.BinaryPath])) else Policy.Missing,
      if SourceDir in source.trees then Some(rd.checkout(source.trees[SourceDir])) else None)
  }

  /** The only binary that these changes install is the built one, and none removes it. */
  predicate InstallsOnly(changes: seq<Installer.Change>, built: string) {
    forall i :: 0 <= i < |changes| ==>
      && (changes[i].Write? && changes[i].path == Installer.BinaryPath ==> changes[i].contents == built)
      && !(changes[i].Delete? && changes[i].path == Installer.BinaryPath)
  }

  predicate Installs(changes: seq<Installer.Change>, built: string) {
    exists i :: 0 <= i < |changes| && changes[i] == Installer.Write(Installer.BinaryPath, built)
  }

  /** After some of the changes the binary is the old one, if there was one, or the built one. */
  lemma {:induction false} BinaryAfter(files: Installer.Files, changes: seq<Installer.Change>, built: string)
    requires InstallsOnly(changes, built)
    ensures var after := Installer.Changed(files, changes);
            && (Installer.BinaryPath in after && Installer.BinaryPath !in files ==>
                  after[Installer.BinaryPath] == built)
            && (Installs(changes, built) ==> Installer.BinaryPath in after && after[Installer.BinaryPath] == built)
  {
    if changes != [] {
      var front, last := changes[..|changes| - 1], changes[|changes| - 1];
      BinaryAfter(files, front, built);
      if Installs(changes, built) && last != Installer.Write(Installer.BinaryPath, built) {
        var i :| 0 <= i < |changes| && changes[i] == Installer.Write(Installer.BinaryPath, built);
        assert front[i] == changes[i];
      }
    }
  }

  /**
   * Decide, check the build, and run the transaction. Every end but a failed rollback is a step of
   * the policy's histories, so that what is proved of those holds of the installer.
   */
  method Upgrade(
      m: Installer.Machine, rd: Reader, q: Policy.Request, built: string, changes: seq<Installer.Change>, stop: nat,
      b: Installer.BeginFaults, p: PromoteFaults, f: Installer.RollbackFaults,
      purgeBackup: Option<string>, purgeSnapshot: Option<Installer.Files>)
    returns (outcome: Option<Policy.Outcome>)
    requires !m.transactionActive && m.snapshot.None? && Untouched(m.source) && Backup !in m.source.trees
    requires InstallsOnly(changes, built) && Installs(changes, built)
    requires Staging in m.source.trees ==>
               rd.checkout(m.source.trees[Staging]) == Policy.Checkout(q.candidate, q.commit)
    modifies m
    ensures outcome.Some? ==>
              Policy.Runs(
                Seen(rd, old(m.files), old(m.source)), Policy.Run(q, outcome.value), Seen(rd, m.files, m.source))
    ensures outcome.None? ==> !m.transactionActive && m.snapshot.Some?
  {
    var decision := Policy.EvaluateUpgradeCandidate(Seen(rd, m.files, m.source), q);
    if decision.Die? {
      return Some(Policy.Died);
    }
    if decision.Noop? {
      return Some(Policy.Ended);
    }
    if rd.reports(built) != q.candidate {
      return Some(Policy.Died);
    }
    var end;
    ghost var made;
    ghost var files, source := m.files, m.source;
    end, made := m.Run(true, changes, stop, b, p, f, purgeBackup, purgeSnapshot);
    BinaryAfter(files, changes, built);
    BinaryAfter(files, changes[..made], built);
    match end {
      case Died => outcome := Some(Policy.Died);
      case Committed => outcome := Some(Policy.Committed(q.candidate));
      case RolledBack => outcome := Some(Policy.RolledBack);
      case RollbackFailed => outcome := None;
    }
  }
}
