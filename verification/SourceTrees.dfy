/** The managed source tree during an installer transaction (`cirrusync-install.sh`). */
module SourceTrees {
  /** The checkout, its backup, a set-aside copy, and the staged candidate. */
  datatype Place = SourceDir | Backup | SetAside | Staging

  /** The trees by place, and the script's variables about them. */
  datatype Source = Source(trees: map<Place, string>, backupNamed: bool, hadExisting: bool, promoted: bool)

  /** The state before any promotion. Leftovers of an earlier process may be in the way. */
  predicate Untouched(s: Source) {
    !s.backupNamed && !s.hadExisting && !s.promoted
  }

  /** A rename within one directory. */
  function Move(s: Source, from: Place, to: Place): Source
    requires from in s.trees
  {
    s.(trees := (s.trees - {from})[to := s.trees[from]])
  }

  function Remove(s: Source, at: Place): Source {
    s.(trees := s.trees - {at})
  }

  /** Which moves of a promotion fail. */
  datatype PromoteFaults = PromoteFaults(moveOld: bool, moveNew: bool)

  /** `promote_source`, and whether it got to its end. */
  function Promote(s: Source, f: PromoteFaults): (Source, bool) {
    if Staging !in s.trees then (s, false)
    else
      var named := s.(hadExisting := false, backupNamed := true);
      if Backup in s.trees then (named, false)
      else if SourceDir !in s.trees then
        if f.moveNew then (named, false) else (Move(named, Staging, SourceDir).(promoted := true), true)
      else
        var found := named.(hadExisting := true);
        if f.moveOld then (found, false)
        else
          var saved := Move(found, SourceDir, Backup);
          if f.moveNew then (saved, false) else (Move(saved, Staging, SourceDir).(promoted := true), true)
  }

  /** Which steps of the restoration fail, and what a failed removal leaves behind. */
  datatype RestoreFaults = RestoreFaults(
    setAside: bool, putBack: bool, removeAside: bool, undo: bool, removeNew: bool, debris: string)

  /** The source part of `rollback_transaction`, and whether it reports no failure. */
  function RestoreSource(s: Source, f: RestoreFaults): (Source, bool) {
    if s.backupNamed && Backup in s.trees then
      if SetAside in s.trees then (s, false)
      else if SourceDir in s.trees && f.setAside then (s, false)
      else
        var cleared := if SourceDir in s.trees then Move(s, SourceDir, SetAside) else s;
        if !f.putBack then
          var back := Move(cleared, Backup, SourceDir).(backupNamed := false);
          if SetAside !in back.trees then (back, true)
          else if f.removeAside then (back.(trees := back.trees[SetAside := f.debris]), false)
          else (Remove(back, SetAside), true)
        else if SetAside in cleared.trees && !f.undo then (Move(cleared, SetAside, SourceDir), false)
        else (cleared, false)
    else if !s.hadExisting && s.promoted then
      if f.removeNew then (s.(trees := s.trees[SourceDir := f.debris]), false) else (Remove(s, SourceDir), true)
    else (s, true)
  }

  /** The source state of a transaction that did or did not get as far as the promotion. */
  function Reached(s: Source, promoting: bool, f: PromoteFaults): Source {
    if promoting then Promote(s, f).0 else s
  }

  predicate WholeAt(s: Source, tree: string) {
    || (SourceDir in s.trees && s.trees[SourceDir] == tree)
    || (Backup in s.trees && s.trees[Backup] == tree)
  }

  /** The same tree, or none, at each of the three places outside the staging area. */
  predicate SamePlaces(a: Source, b: Source) {
    forall p :: p != Staging ==> (p in a.trees <==> p in b.trees) && (p in a.trees ==> a.trees[p] == b.trees[p])
  }

  /**
   * A promotion succeeds exactly when there is a candidate, no tree is under the backup's name, and
   * no move that it needs fails. Then the candidate is in the place of the previous tree, if any,
   * which is at the backup.
   */
  lemma PromotesExactly(s: Source, f: PromoteFaults)
    ensures Promote(s, f).1 <==>
            Staging in s.trees && Backup !in s.trees && !f.moveNew && (SourceDir in s.trees ==> !f.moveOld)
    ensures Promote(s, f).1 ==>
              var after := Promote(s, f).0.trees;
              && Staging !in after && SourceDir in after && after[SourceDir] == s.trees[Staging]
              && (Backup in after <==> SourceDir in s.trees)
              && (SourceDir in s.trees ==> after[Backup] == s.trees[SourceDir])
              && (SetAside in after <==> SetAside in s.trees)
              && (SetAside in after ==> after[SetAside] == s.trees[SetAside])
  {
  }

  /** The promotion got as far as moving the previous tree to the backup. */
  predicate OldIsMoved(s: Source, promoting: bool, p: PromoteFaults) {
    promoting && Staging in s.trees && SourceDir in s.trees && !p.moveOld
  }

  /**
   * A restoration succeeds exactly when nothing that it needs is in the way or fails: to put a
   * moved tree back, the place to set the candidate aside must be free, and each of its moves
   * succeed; a candidate where there was no tree must be removed.
   */
  lemma RestoresExactly(s: Source, promoting: bool, p: PromoteFaults, r: RestoreFaults)
    requires Untouched(s) && Backup !in s.trees
    ensures RestoreSource(Reached(s, promoting, p), r).1 <==>
            && (OldIsMoved(s, promoting, p) ==> SetAside !in s.trees && !r.putBack)
            && (OldIsMoved(s, promoting, p) && !p.moveNew ==> !r.setAside && !r.removeAside)
            && (promoting && Staging in s.trees && SourceDir !in s.trees && !p.moveNew ==> !r.removeNew)
  {
  }

  /**
   * Without a stale backup, whichever moves fail, the previous tree stays whole at the source path
   * or at the backup, before and after the restoration.
   */
  lemma PreviousTreeSurvives(s: Source, promoting: bool, p: PromoteFaults, r: RestoreFaults)
    requires Untouched(s) && SourceDir in s.trees && Backup !in s.trees
    ensures WholeAt(Reached(s, promoting, p), s.trees[SourceDir])
    ensures WholeAt(RestoreSource(Reached(s, promoting, p), r).0, s.trees[SourceDir])
  {
  }

  /** A restoration that reports success puts every tree back where it was. */
  lemma SuccessRestoresTrees(s: Source, promoting: bool, p: PromoteFaults, r: RestoreFaults)
    requires Untouched(s) && Backup !in s.trees
    requires RestoreSource(Reached(s, promoting, p), r).1
    ensures SamePlaces(RestoreSource(Reached(s, promoting, p), r).0, s)
  {
    var reached := Reached(s, promoting, p);
    var after := RestoreSource(reached, r).0;
    forall place: Place | place != Staging
      ensures place in after.trees <==> place in s.trees
      ensures place in after.trees ==> after.trees[place] == s.trees[place]
    {
    }
  }

  /** Without faults, and with nothing stale in the way, the restoration does report success. */
  lemma FaultlessRestorationSucceeds(s: Source, promoting: bool, p: PromoteFaults, r: RestoreFaults)
    requires Untouched(s) && Backup !in s.trees && SetAside !in s.trees
    requires !r.setAside && !r.putBack && !r.removeAside && !r.removeNew
    ensures RestoreSource(Reached(s, promoting, p), r).1
  {
  }

  /**
   * The backup's name is recorded before it is checked to be free. With a stale tree under that
   * name, the promotion stops, and the restoration then takes the stale tree for the backup: it
   * sets the real tree aside, puts the stale one in its place, and deletes the real one.
   */
  lemma StaleBackupDestroysTree()
    ensures var trees := map[SourceDir := "current", Backup := "stale", Staging := "candidate"];
            var s := Source(trees, false, false, false);
            var after := RestoreSource(
              Promote(s, PromoteFaults(false, false)).0, RestoreFaults(false, false, false, false, false, ""));
            after.1 && after.0.trees == map[SourceDir := "stale", Staging := "candidate"]
  {
    var s := Source(map[SourceDir := "current", Backup := "stale", Staging := "candidate"], false, false, false);
    var named := Promote(s, PromoteFaults(false, false)).0;
    assert named == s.(backupNamed := true);
    var cleared := Move(named, SourceDir, SetAside);
    assert cleared.trees == map[SetAside := "current", Backup := "stale", Staging := "candidate"];
    var back := Move(cleared, Backup, SourceDir);
    assert back.trees == map[SetAside := "current", SourceDir := "stale", Staging := "candidate"];
    assert Remove(back, SetAside).trees == map[SourceDir := "stale", Staging := "candidate"];
  }

  /**
   * Exactly when the previous tree survives every way of failing: when no different tree is under
   * the backup's name, or when one is under the set-aside name too, or nothing was staged.
   */
  lemma SurvivesExactly(s: Source)
    requires Untouched(s) && SourceDir in s.trees
    ensures (forall promoting, p, r :: WholeAt(RestoreSource(Reached(s, promoting, p), r).0, s.trees[SourceDir]))
       <==> || Backup !in s.trees || s.trees[Backup] == s.trees[SourceDir]
            || SetAside in s.trees || Staging !in s.trees
  {
    var tree := s.trees[SourceDir];
    var safe := || Backup !in s.trees || s.trees[Backup] == tree || SetAside in s.trees || Staging !in s.trees;
    if safe {
      forall promoting, p, r
        ensures WholeAt(RestoreSource(Reached(s, promoting, p), r).0, tree)
      {
        if Backup !in s.trees {
          PreviousTreeSurvives(s, promoting, p, r);
        }
      }
    } else {
      var p, r := PromoteFaults(false, false), RestoreFaults(false, false, false, false, false, "");
      StaleTreeWins(s, p, r);
      assert !WholeAt(RestoreSource(Reached(s, true, p), r).0, tree);
    }
  }

  lemma StaleTreeWins(s: Source, p: PromoteFaults, r: RestoreFaults)
    requires Untouched(s) && SourceDir in s.trees && Backup in s.trees && SetAside !in s.trees && Staging in s.trees
    requires !r.setAside && !r.putBack
    ensures var after := RestoreSource(Promote(s, p).0, r).0;
            SourceDir in after.trees && after.trees[SourceDir] == s.trees[Backup] && Backup !in after.trees
  {
  }
}
