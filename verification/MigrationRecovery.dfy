/**
 Convergence under power loss: after any mix of power losses and of kills outside the
 unsafe window, one uninterrupted run finishes the move exactly when it does not find a
 temporary whose content differs from the payload.
 */
module MigrationRecovery {
  import opened Bytes
  import opened MigrationFs
  import opened MigrationProtocol
  import opened MigrationSafety
  import opened MigrationConvergence
  import opened MigrationDurability

  /** The entry may be found under the name: now, or after some power loss. */
  ghost predicate Occurs(v: Volume, n: Name, e: Entry) {
    e == v.live.At(n) || e == v.disk.At(n) || exists k :: 0 <= k < |v.pending| && v.pending[k] == Put(n, e)
  }

  ghost predicate Ours(env: Env, inode: Inode) {
    inode == Inode(true, 0x180, env.euid, inode.content, inode.synced, 0)
  }

  /** A temporary of ours, with any content. */
  ghost predicate OurFile(env: Env, v: Volume, e: Entry) {
    e.File? && e.ino in v.inodes && Ours(env, v.inodes[e.ino])
  }

  /** A complete, synced journal. */
  ghost predicate OurRecord(env: Env, v: Volume, e: Entry) {
    OurFile(env, v, e) && v.inodes[e.ino].content == env.payload && v.inodes[e.ino].synced
  }

  /** At most one file is ever named as journal or temporary; once named as the journal it is
      complete, and only then can the temporary's name go. */
  ghost predicate OneFile(env: Env, v: Volume) {
    && (forall e :: Occurs(v, Temp, e) ==> e == Absent || OurFile(env, v, e))
    && (forall e :: Occurs(v, Journal, e) ==> e == Absent || OurRecord(env, v, e))
    && (forall e, f :: Occurs(v, Temp, e) && Occurs(v, Temp, f) && e.File? && f.File? ==> e == f)
    && (forall e, f :: Occurs(v, Journal, e) && Occurs(v, Temp, f) && e.File? && f.File? ==> e == f)
    && (forall e, f :: Occurs(v, Journal, e) && Occurs(v, Journal, f) && e.File? && f.File? ==> e == f)
    && (v.live.journal == Absent ==> forall e :: Occurs(v, Journal, e) ==> e == Absent)
    && (v.live.journal == Absent && v.live.temp == Absent ==> forall e :: Occurs(v, Temp, e) ==> e == Absent)
  }

  ghost predicate FoldersOnly(v: Volume) {
    FolderOrAbsent(v.live.quarantine) && FolderOrAbsent(v.disk.quarantine)
  }

  ghost predicate RecoveryInv(env: Env, first: Names, s: State) {
    var v := s.vol;
    && DurableInv(env, first, s)
    && OneFile(env, v)
    && FoldersOnly(v)
    && NoTempYet(s)
  }

  /** On the way to creating the temporary there is none. */
  ghost predicate NoTempYet(s: State) {
    match s.pc
    case Check(valid) => valid || s.vol.live.temp == Absent
    case Mkdir(valid) => valid || s.vol.live.temp == Absent
    case Create => s.vol.live.temp == Absent
    case _ => true
  }

  // Where entries come from.

  lemma {:induction false} FlushOccurs(first: Names, names: Names, changes: seq<Change>, folder: Folder, n: Name)
    requires AllExpected(first, changes) && (n == Journal || n == Temp)
    ensures var e := Flush(names, changes, folder).At(n);
            e == names.At(n) || exists k :: 0 <= k < |changes| && changes[k] == Put(n, e)
  {
    if changes != [] {
      var k := |changes| - 1;
      FlushOccurs(first, names, changes[..k], folder, n);
      assert Expected(first, changes[k]);
      var e := Flush(names, changes[..k], folder).At(n);
      if e != names.At(n) {
        var j :| 0 <= j < k && changes[..k][j] == Put(n, e);
        assert changes[j] == Put(n, e);
      }
    }
  }

  lemma {:induction false} SurviveOccurs(first: Names, names: Names, changes: seq<Change>, keep: seq<bool>, n: Name)
    requires |keep| == |changes| && AllExpected(first, changes) && (n == Journal || n == Temp)
    ensures var e := Survive(names, changes, keep).At(n);
            e == names.At(n) || exists k :: 0 <= k < |changes| && changes[k] == Put(n, e)
  {
    if changes != [] {
      var k := |changes| - 1;
      SurviveOccurs(first, names, changes[..k], keep[..k], n);
      assert Expected(first, changes[k]);
      var e := Survive(names, changes[..k], keep[..k]).At(n);
      if e != names.At(n) {
        var j :| 0 <= j < k && changes[..k][j] == Put(n, e);
        assert changes[j] == Put(n, e);
      }
    }
  }

  lemma {:induction false} SyncOccurs(first: Names, v: Volume, folder: Folder, n: Name, e: Entry)
    requires AllExpected(first, v.pending) && (n == Journal || n == Temp)
    requires Occurs(v.SyncFolder(folder), n, e)
    ensures Occurs(v, n, e)
  {
    hide Flush, Others;
    var w := v.SyncFolder(folder);
    FlushOccurs(first, v.disk, v.pending, folder, n);
    if k :| 0 <= k < |w.pending| && w.pending[k] == Put(n, e) {
      assert w.pending[k] in v.pending;
      var j :| 0 <= j < |v.pending| && v.pending[j] == Put(n, e);
    }
  }

  lemma {:induction false} DoOccurs(v: Volume, change: Change, n: Name, e: Entry)
    requires Occurs(v.Do(change), n, e)
    requires change.Rename? ==> !change.Edits(n)
    ensures Occurs(v, n, e) || change == Put(n, e)
  {
    var w := v.Do(change);
    if k :| 0 <= k < |w.pending| && w.pending[k] == Put(n, e) {
      assert k < |v.pending| ==> v.pending[k] == Put(n, e);
    }
  }

  // Steps.

  lemma {:induction false} SameNamesOneFile(env: Env, v: Volume, w: Volume)
    requires OneFile(env, v) && w.live == v.live
    requires forall n, e :: (n == Journal || n == Temp) && Occurs(w, n, e) ==> Occurs(v, n, e)
    requires forall i <- v.inodes :: i in w.inodes && w.inodes[i] == v.inodes[i].(synced := w.inodes[i].synced)
    requires forall i <- v.inodes :: v.inodes[i].synced ==> w.inodes[i].synced
    ensures OneFile(env, w)
  {
    hide Occurs;
  }

  lemma {:induction false} SyncOneFile(env: Env, first: Names, v: Volume, folder: Folder)
    requires OneFile(env, v) && AllExpected(first, v.pending)
    ensures OneFile(env, v.SyncFolder(folder))
  {
    hide OneFile, Occurs, AllExpected;
    forall n, e | (n == Journal || n == Temp) && Occurs(v.SyncFolder(folder), n, e) ensures Occurs(v, n, e) {
      SyncOccurs(first, v, folder, n, e);
    }
    SameNamesOneFile(env, v, v.SyncFolder(folder));
  }

  lemma {:induction false} SyncFileOneFile(env: Env, v: Volume, e: Entry)
    requires OneFile(env, v)
    ensures OneFile(env, v.SyncFile(e))
  {
    hide OneFile;
    SameNamesOneFile(env, v, v.SyncFile(e));
  }

  /** Changes to other names. */
  lemma {:induction false} OtherDoOneFile(env: Env, v: Volume, change: Change)
    requires OneFile(env, v) && !change.Edits(Journal) && !change.Edits(Temp)
    ensures OneFile(env, v.Do(change))
  {
    hide OneFile;
    var w := v.Do(change);
    assert w.live.At(Journal) == v.live.At(Journal) && w.live.At(Temp) == v.live.At(Temp);
    forall n, e | (n == Journal || n == Temp) && Occurs(w, n, e) ensures Occurs(v, n, e) {
      DoOccurs(v, change, n, e);
    }
    OtherLiveOneFile(env, v, w);
  }

  lemma {:induction false} OtherLiveOneFile(env: Env, v: Volume, w: Volume)
    requires OneFile(env, v) && w.inodes == v.inodes
    requires w.live.journal == v.live.journal && w.live.temp == v.live.temp
    requires forall n, e :: (n == Journal || n == Temp) && Occurs(w, n, e) ==> Occurs(v, n, e)
    ensures OneFile(env, w)
  {
    hide Occurs;
  }

  lemma {:induction false} CreateOneFile(env: Env, v: Volume, ino: nat)
    requires OneFile(env, v) && v.live.journal == Absent && v.live.temp == Absent && ino !in v.inodes
    ensures OneFile(env, v.(inodes := v.inodes[ino := Inode(true, 0x180, env.euid, [], false, 0)]).Do(Put(Temp, File(ino))))
  {
    hide Occurs;
    var u := v.(inodes := v.inodes[ino := Inode(true, 0x180, env.euid, [], false, 0)]);
    var w := u.Do(Put(Temp, File(ino)));
    forall n, e | (n == Journal || n == Temp) && Occurs(w, n, e) ensures Occurs(v, n, e) || (n == Temp && e == File(ino)) {
      DoOccurs(u, Put(Temp, File(ino)), n, e);
      SameOccurs(u, v, n, e);
    }
    assert w.live.At(Journal) == w.live.journal && w.live.At(Temp) == w.live.temp;
  }

  lemma {:induction false} SameOccurs(u: Volume, v: Volume, n: Name, e: Entry)
    requires u.live == v.live && u.disk == v.disk && u.pending == v.pending
    ensures Occurs(u, n, e) == Occurs(v, n, e)
  {
  }

  /** Writing changes the temporary only, and no journal is named yet. */
  lemma {:induction false} WriteOneFile(env: Env, v: Volume, content: seq<byte>)
    requires OneFile(env, v) && v.live.journal == Absent && v.live.temp.File? && v.live.temp.ino in v.inodes
    ensures var i := v.live.temp.ino;
            OneFile(env, v.(inodes := v.inodes[i := v.inodes[i].(content := content, synced := false)]))
  {
    hide Occurs;
    var i := v.live.temp.ino;
    var w := v.(inodes := v.inodes[i := v.inodes[i].(content := content, synced := false)]);
    forall n, e ensures Occurs(w, n, e) == Occurs(v, n, e) {
      SameOccurs(w, v, n, e);
    }
  }

  lemma {:induction false} LinkOneFile(env: Env, v: Volume)
    requires OneFile(env, v) && OurRecord(env, v, v.live.temp) && v.live.journal == Absent
    ensures OneFile(env, v.Do(Put(Journal, v.live.temp)))
  {
    hide Occurs;
    var w := v.Do(Put(Journal, v.live.temp));
    assert Occurs(v, Temp, v.live.temp) by {
      LiveOccurs(v, Temp);
    }
    forall n, e | (n == Journal || n == Temp) && Occurs(w, n, e) ensures Occurs(v, n, e) || (n == Journal && e == v.live.temp) {
      DoOccurs(v, Put(Journal, v.live.temp), n, e);
    }
    assert w.live.At(Journal) == w.live.journal && w.live.At(Temp) == w.live.temp;
  }

  lemma {:induction false} LiveOccurs(v: Volume, n: Name)
    ensures Occurs(v, n, v.live.At(n))
  {
  }

  lemma {:induction false} UnlinkOneFile(env: Env, v: Volume)
    requires OneFile(env, v) && v.live.journal.File?
    ensures OneFile(env, v.Do(Put(Temp, Absent)))
  {
    hide Occurs;
    var w := v.Do(Put(Temp, Absent));
    forall n, e | (n == Journal || n == Temp) && Occurs(w, n, e) ensures Occurs(v, n, e) || e == Absent {
      DoOccurs(v, Put(Temp, Absent), n, e);
    }
    assert w.live.At(Journal) == w.live.journal && w.live.At(Temp) == w.live.temp;
  }

  lemma {:induction false} JournalStepOneFile(env: Env, first: Names, s: State, t: State)
    requires RecoveryInv(env, first, s) && Step(env, s, t)
    requires s.pc.Idle? || s.pc.Validate? || s.pc.Link? || s.pc.Unlink? || s.pc.SyncQuarantine? || s.pc.Revalidate?
    ensures OneFile(env, t.vol)
  {
    hide Flush, Others, Creates, Writes, TreeAllowed, OneFile;
    var v := s.vol;
    match s.pc
    case Idle => SyncFileOneFile(env, v, v.live.journal);
    case Validate(_) => SyncFileOneFile(env, v, v.live.temp);
    case Link(_) =>
      TempIsOurs(env, v);
      LinkOneFile(env, v);
    case Unlink(_) => UnlinkOneFile(env, v);
    case SyncQuarantine(_) => SyncOneFile(env, first, v, QuarantineFolder);
    case Revalidate(_) => SyncFileOneFile(env, v, v.live.journal);
  }

  lemma {:induction false} TempIsOurs(env: Env, v: Volume)
    requires OneFile(env, v)
    ensures v.live.temp == Absent || OurFile(env, v, v.live.temp)
    ensures v.live.journal == Absent || OurRecord(env, v, v.live.journal)
    ensures v.live.temp.File? && v.live.journal.File? ==> v.live.temp == v.live.journal
  {
    LiveOccurs(v, Temp);
    LiveOccurs(v, Journal);
  }

  lemma {:induction false} WriteStepOneFile(env: Env, first: Names, s: State, t: State)
    requires RecoveryInv(env, first, s) && Step(env, s, t)
    requires s.pc.Check? || s.pc.Mkdir? || s.pc.Create? || s.pc.Write? || s.pc.SyncTemp?
    ensures OneFile(env, t.vol)
  {
    hide Flush, Others, Opening, TreeAllowed, OneFile, VolumeInv;
    var v := s.vol;
    match s.pc
    case Check(_) =>
    case Mkdir(_) => OtherDoOneFile(env, v, Put(Quarantine, Directory(0)));
    case Create =>
      var ino :| ino !in v.inodes && t.vol == v.(inodes := v.inodes[ino := Inode(true, 0x180, env.euid, [], false, 0)])
                                               .Do(Put(Temp, File(ino)));
      CreateOneFile(env, v, ino);
    case Write =>
      var n :| |v.inodes[v.live.temp.ino].content| < n <= |env.payload| &&
               t.vol == v.(inodes := v.inodes[v.live.temp.ino := v.inodes[v.live.temp.ino].(content := env.payload[..n], synced := false)]);
      WriteOneFile(env, v, env.payload[..n]);
    case SyncTemp => SyncFileOneFile(env, v, v.live.temp);
  }

  lemma {:induction false} MoveStepOneFile(env: Env, first: Names, s: State, t: State)
    requires RecoveryInv(env, first, s) && Step(env, s, t)
    requires s.pc.SyncObj? || s.pc.Move? || s.pc.SyncSource? || s.pc.SyncDest?
    ensures OneFile(env, t.vol)
  {
    hide Flush, Others, Opening, TreeAllowed, OneFile, Creates, Writes;
    var v := s.vol;
    match s.pc
    case SyncObj => SyncOneFile(env, first, v, ObjFolder);
    case Move(tree) =>
      if v.live.At(Source(tree)).Directory? {
        OtherDoOneFile(env, v, Rename(Source(tree), Dest(tree), v.live.At(Source(tree)).id));
      }
    case SyncSource(tree) => SyncOneFile(env, first, v, Holder(Source(tree)));
    case SyncDest(_) => SyncOneFile(env, first, v, QuarantineFolder);
  }

  lemma {:induction false} FlushFolder(first: Names, names: Names, changes: seq<Change>, folder: Folder)
    requires AllExpected(first, changes) && FolderOrAbsent(names.quarantine)
    ensures FolderOrAbsent(Flush(names, changes, folder).quarantine)
  {
    if changes != [] {
      var k := |changes| - 1;
      FlushFolder(first, names, changes[..k], folder);
      assert Expected(first, changes[k]);
      var rest := Flush(names, changes[..k], folder);
      assert changes[k].Apply(rest).At(Quarantine) == changes[k].Apply(rest).quarantine && rest.At(Quarantine) == rest.quarantine;
    }
  }

  lemma {:induction false} SurviveFolder(first: Names, names: Names, changes: seq<Change>, keep: seq<bool>)
    requires |keep| == |changes| && AllExpected(first, changes) && FolderOrAbsent(names.quarantine)
    ensures FolderOrAbsent(Survive(names, changes, keep).quarantine)
  {
    if changes != [] {
      var k := |changes| - 1;
      SurviveFolder(first, names, changes[..k], keep[..k]);
      assert Expected(first, changes[k]);
      var rest := Survive(names, changes[..k], keep[..k]);
      assert changes[k].Apply(rest).At(Quarantine) == changes[k].Apply(rest).quarantine && rest.At(Quarantine) == rest.quarantine;
    }
  }

  lemma {:induction false} StepFolders(env: Env, first: Names, s: State, t: State)
    requires AllExpected(first, s.vol.pending) && FoldersOnly(s.vol) && Step(env, s, t)
    ensures FoldersOnly(t.vol)
  {
    hide Flush, Others, TreeAllowed, Exact, AllExpected;
    forall folder ensures FolderOrAbsent(Flush(s.vol.disk, s.vol.pending, folder).quarantine) {
      FlushFolder(first, s.vol.disk, s.vol.pending, folder);
    }
  }

  lemma {:induction false} StepNoTempYet(env: Env, s: State, t: State)
    requires NoTempYet(s) && Step(env, s, t)
    ensures NoTempYet(t)
  {
    hide Flush, Others, TreeAllowed, Exact;
    assert t.vol.live.At(Temp) == t.vol.live.temp && s.vol.live.At(Temp) == s.vol.live.temp;
  }

  lemma {:induction false} StepKeepsRecovery(env: Env, first: Names, s: State, t: State)
    requires RecoveryInv(env, first, s) && Step(env, s, t) && first == first.Reachable()
    ensures RecoveryInv(env, first, t)
  {
    hide DurableInv, OneFile, Determined, Creates, Writes, NoTempYet;
    NextKeepsInv(env, first, s, t);
    PendingExpected(env, first, s);
    StepFolders(env, first, s, t);
    StepNoTempYet(env, s, t);
    match s.pc
    case Check(_) | Mkdir(_) | Create | Write | SyncTemp => WriteStepOneFile(env, first, s, t);
    case SyncObj | Move(_) | SyncSource(_) | SyncDest(_) => MoveStepOneFile(env, first, s, t);
    case _ => JournalStepOneFile(env, first, s, t);
  }

  lemma {:induction false} PendingExpected(env: Env, first: Names, s: State)
    requires DurableInv(env, first, s)
    ensures AllExpected(first, s.vol.pending)
  {
  }

  // Power loss.

  lemma {:induction false} FoundOccurs(first: Names, v: Volume, found: Volume, n: Name, e: Entry)
    requires AllExpected(first, v.pending) && LosesPowerTo(v, found) && (n == Journal || n == Temp) && Occurs(found, n, e)
    ensures e == found.live.At(n) && (e == Absent || Occurs(v, n, e))
  {
    hide Survive;
    var keep: seq<bool> :| |keep| == |v.pending| && found.live == Survive(v.disk, v.pending, keep).Reachable();
    SurviveOccurs(first, v.disk, v.pending, keep, n);
  }

  lemma {:induction false} PowerLossOneFile(env: Env, first: Names, v: Volume, found: Volume)
    requires OneFile(env, v) && AllExpected(first, v.pending) && LosesPowerTo(v, found)
    ensures OneFile(env, found)
  {
    hide Occurs, AllExpected;
    forall n, e | (n == Journal || n == Temp) && Occurs(found, n, e) ensures e == found.live.At(n) && (e == Absent || Occurs(v, n, e)) {
      FoundOccurs(first, v, found, n, e);
    }
  }

  lemma {:induction false} PowerLossKeepsRecovery(env: Env, first: Names, s: State, t: State)
    requires RecoveryInv(env, first, s) && PowerLoss(s, t) && first == first.Reachable()
    ensures RecoveryInv(env, first, t)
  {
    hide DurableInv, OneFile, Survive;
    var v := s.vol;
    PendingExpected(env, first, s);
    PowerLossKeepsInv(env, first, s, t);
    PowerLossOneFile(env, first, v, t.vol);
    var keep: seq<bool> :| |keep| == |v.pending| && t.vol.live == Survive(v.disk, v.pending, keep).Reachable();
    SurviveFolder(first, v.disk, v.pending, keep);
  }

  lemma {:induction false} RecoveryStarts(env: Env, s: State)
    requires Migratable(s.vol) && s.pc == Idle
    ensures RecoveryInv(env, s.vol.live, s)
  {
  }

  lemma {:induction false} GuardedRunsRecovery(env: Env, trace: seq<State>)
    requires GuardedRuns(env, trace) && Migratable(trace[0].vol)
    ensures RecoveryInv(env, trace[0].vol.live, trace[|trace| - 1])
  {
    hide RecoveryInv, Migratable, Step, PowerLoss, Kill, Hazard;
    var first := trace[0].vol.live;
    if |trace| == 1 {
      RecoveryStarts(env, trace[0]);
    } else {
      var n := |trace| - 1;
      var s, t := trace[n - 1], trace[n];
      GuardedRunsRecovery(env, trace[..n]);
      assert trace[..n][n - 1] == s && GuardedNext(env, s, trace[n - 1 + 1]);
      FirstReachable(trace[0].vol);
      if Step(env, s, t) {
        StepKeepsRecovery(env, first, s, t);
      } else if PowerLoss(s, t) {
        PowerLossKeepsRecovery(env, first, s, t);
      } else {
        KillKeepsRecovery(env, first, s, t);
      }
    }
  }

  lemma {:induction false} FirstReachable(v: Volume)
    requires Migratable(v)
    ensures v.live == v.live.Reachable()
  {
  }

  lemma {:induction false} KillKeepsRecovery(env: Env, first: Names, s: State, t: State)
    requires RecoveryInv(env, first, s) && Kill(s, t) && !Hazard(s)
    ensures RecoveryInv(env, first, t)
  {
    hide DurableInv, OneFile, Hazard;
    KillKeepsDurable(env, first, s, t);
  }

  // The next run.

  /** The temporary's content is not the payload. */
  ghost predicate SpoiledTemp(env: Env, v: Volume) {
    v.live.temp.File? && v.live.temp.ino in v.inodes && v.inodes[v.live.temp.ino].content != env.payload
  }

  /** What a run finds when it starts. */
  ghost predicate Startable(env: Env, first: Names, v: Volume) {
    && FolderOrAbsent(v.live.quarantine) && v.live.targetParent == first.targetParent
    && (v.live.temp == Absent || OurFile(env, v, v.live.temp))
    && (v.live.journal == Absent || OurRecord(env, v, v.live.journal))
    && (v.live.temp.File? && v.live.journal.File? ==> v.live.temp == v.live.journal)
    && forall tree: Tree :: Unmoved(first, v.live, tree) || (Moved(first, v.live, tree) && v.live.journal.File?)
  }

  lemma {:induction false} RecoveryIsStartable(env: Env, first: Names, s: State)
    requires RecoveryInv(env, first, s)
    ensures Startable(env, first, s.vol)
  {
    hide OneFile, Flush, Coherent, AllExpected;
    TempIsOurs(env, s.vol);
    forall tree: Tree ensures Unmoved(first, s.vol.live, tree) || (Moved(first, s.vol.live, tree) && s.vol.live.journal.File?) {
      assert Still(first, s.vol, tree) || Away(env, first, s.vol, tree);
    }
  }

  lemma {:induction false} SpoiledTempRefuses(env: Env, first: Names, run: seq<State>)
    requires Uninterrupted(env, run) && Startable(env, first, run[0].vol) && SpoiledTemp(env, run[0].vol)
    ensures run[|run| - 1].vol == run[0].vol
    ensures run[|run| - 1].pc.Done? ==> run[|run| - 1].pc.code == 2
  {
    hide TreeAllowed, Flush, Others;
    if |run| > 1 {
      RunStep(env, run, 0);
      assert run[1] == State(run[0].vol, Validate(true));
      if |run| > 2 {
        RunStep(env, run, 1);
        assert run[2] == State(run[0].vol, Done(2));
        if |run| > 3 {
          RunStep(env, run, 2);
          assert false;
        }
      }
    }
  }

  /** Without a journal, or with the journal alone, the run is on track from its start. */
  lemma {:induction false} StartsOnTrack(env: Env, first: Volume, s: State)
    requires Startable(env, first.live, s.vol) && !SpoiledTemp(env, s.vol) && s.pc == Idle
    requires !(s.vol.live.journal.File? && s.vol.live.temp.File?)
    ensures OnTrack(env, first.live, s)
  {
  }

  /** With both, it is once the temporary is unlinked again. */
  lemma {:induction false} UnlinksOnTrack(env: Env, first: Volume, s: State)
    requires Startable(env, first.live, s.vol) && s.pc == Idle && s.vol.live.journal.File? && s.vol.live.temp.File?
    ensures var t := Determined(env, s); t.pc == Unlink(true) && OnTrack(env, first.live, Determined(env, t))
  {
    var t := Determined(env, s);
    assert t == State(s.vol.SyncFile(s.vol.live.journal), Unlink(true));
    var u := Determined(env, t);
    forall tree: Tree ensures Unmoved(first.live, u.vol.live, tree) || (Moved(first.live, u.vol.live, tree) && JournalInstalled(env, u.vol)) {
      assert Unmoved(first.live, s.vol.live, tree) || Moved(first.live, s.vol.live, tree);
    }
  }

  /** After any mix of power losses and of kills outside the window, a run that gets to its end
      succeeds if and only if it did not find a temporary whose content differs from the payload.
      Success is the whole migration; refusal changes nothing. */
  lemma {:induction false} RecoveryConverges(env: Env, trace: seq<State>, run: seq<State>)
    requires GuardedRuns(env, trace) && Migratable(trace[0].vol)
    requires Uninterrupted(env, run) && run[0] == trace[|trace| - 1]
    requires run[|run| - 1].pc.Done?
    ensures run[|run| - 1].pc.code == 0 <==> !SpoiledTemp(env, run[0].vol)
    ensures run[|run| - 1].pc.code == 0 ==> Migrated(env, trace[0].vol.live, run[|run| - 1].vol)
    ensures run[|run| - 1].pc.code != 0 ==> run[|run| - 1].vol == run[0].vol
  {
    hide RecoveryInv, GuardedNext, Startable, SpoiledTemp, Migratable, OnTrack, Step, Migrated;
    var first, n := trace[0].vol, |run| - 1;
    GuardedRunsRecovery(env, trace);
    RecoveryIsStartable(env, first.live, run[0]);
    if SpoiledTemp(env, run[0].vol) {
      SpoiledTempRefuses(env, first.live, run);
    } else {
      EndsOnTrack(env, first, run);
      TrackEnds(env, first, run[n]);
    }
  }

  lemma {:induction false} TrackEnds(env: Env, first: Volume, s: State)
    requires Migratable(first) && OnTrack(env, first.live, s) && s.pc.Done?
    ensures s.pc.code == 0 && Migrated(env, first.live, s.vol)
  {
    assert Unmoved(first.live, s.vol.live, Host) || Moved(first.live, s.vol.live, Host);
    assert Unmoved(first.live, s.vol.live, Target) || Moved(first.live, s.vol.live, Target);
  }

  lemma {:induction false} EndsOnTrack(env: Env, first: Volume, run: seq<State>)
    requires Migratable(first) && Uninterrupted(env, run) && run[|run| - 1].pc.Done?
    requires Startable(env, first.live, run[0].vol) && !SpoiledTemp(env, run[0].vol)
    ensures OnTrack(env, first.live, run[|run| - 1])
  {
    hide Startable, SpoiledTemp, Migratable, OnTrack, Determined;
    var s := run[0];
    if s.vol.live.journal.File? && s.vol.live.temp.File? {
      UnlinksOnTrack(env, first, s);
      assert |run| > 1;
      RunStep(env, run, 0);
      assert |run| > 2;
      RunStep(env, run, 1);
      var rest := run[2..];
      forall k | 0 <= k < |rest| - 1 ensures Step(env, rest[k], rest[k + 1]) {
        RunStep(env, run, k + 2);
      }
      StretchStaysOnTrack(env, first, rest);
    } else {
      StartsOnTrack(env, first, s);
      StretchStaysOnTrack(env, first, run);
    }
  }
}
