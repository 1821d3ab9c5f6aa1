/**
 Power loss: after any mix of power losses and kills, a tree that is durably
 quarantined has a durable exact journal in a durable quarantine directory, provided
 no kill falls into one window. Killing inside that window really breaks the promise.
 */
module MigrationDurability {
  import opened MigrationFs
  import opened MigrationProtocol
  import opened MigrationConvergence

  /** The journal name leads to the exact record, whatever its link count. */
  ghost predicate JournalNamed(env: Env, v: Volume) {
    var entry := v.live.journal;
    && entry.File?
    && entry.ino in v.inodes
    && var inode := v.inodes[entry.ino];
    && inode.regular
    && inode.mode == 0x180
    && inode.owner == env.euid
    && inode.content == env.payload
  }

  /** What must be true of any volume found at restart. */
  ghost predicate DurableSafe(env: Env, first: Names, found: Volume) {
    forall tree: Tree ::
      || Unmoved(first, found.live, tree)
      || (Moved(first, found.live, tree) && JournalNamed(env, found) && found.live.quarantine.Directory?)
  }

  /** The journal's entry cannot be lost any more, or the next run has no host tree to move
      before it syncs the quarantine directory. */
  ghost predicate Committed(v: Volume) {
    v.Settled(Journal) || !v.live.hostSource.Directory?
  }

  /** The one window: the temporary is unlinked, the directory not yet synced. A run killed
      here leaves a journal that the next run takes as installed without syncing it. */
  ghost predicate Hazard(s: State) {
    s.pc.SyncQuarantine? && !Committed(s.vol)
  }

  ghost predicate GuardedNext(env: Env, s: State, t: State) {
    || Step(env, s, t)
    || (Kill(s, t) && !Hazard(s))
    || PowerLoss(s, t)
  }

  ghost predicate GuardedRuns(env: Env, trace: seq<State>) {
    && 0 < |trace|
    && trace[0].pc == Idle
    && forall k :: 0 <= k < |trace| - 1 ==> GuardedNext(env, trace[k], trace[k + 1])
  }

  // The invariant.

  ghost predicate JournalPath(n: Name) {
    n == Quarantine || n == Journal || n == Temp
  }

  /** The changes a migration makes: journal bookkeeping, and the rename of a tree that was found. */
  ghost predicate Expected(first: Names, change: Change) {
    match change
    case Put(name, entry) => JournalPath(name) && (name == Quarantine ==> entry.Directory?)
    case Rename(from, to, id) =>
      exists tree: Tree ::
        from == Source(tree) && to == Dest(tree) && first.At(from) == Directory(id) && first.At(to) == Absent
  }

  ghost predicate AllExpected(first: Names, changes: seq<Change>) {
    forall k :: 0 <= k < |changes| ==> Expected(first, changes[k])
  }

  /** System calls see the disk with this entry's unsynced changes made in order. */
  ghost predicate Coherent(v: Volume, n: Name) {
    v.live.At(n) == Flush(v.disk, v.pending, Holder(n)).At(n)
  }

  ghost predicate Known(v: Volume, e: Entry) {
    e.File? ==> e.ino in v.inodes
  }

  ghost predicate AllKnown(v: Volume) {
    && Known(v, v.live.journal) && Known(v, v.live.temp)
    && Known(v, v.disk.journal) && Known(v, v.disk.temp)
    && forall k :: 0 <= k < |v.pending| && v.pending[k].Put? ==> Known(v, v.pending[k].entry)
  }

  ghost predicate Recorded(env: Env, v: Volume) {
    JournalNamed(env, v) && v.inodes[v.live.journal.ino].synced
  }

  ghost predicate Anchored(env: Env, v: Volume) {
    Recorded(env, v) && v.Settled(Journal) && v.Settled(Quarantine) && v.live.quarantine.Directory?
  }

  ghost predicate Still(first: Names, v: Volume, tree: Tree) {
    && Unmoved(first, v.live, tree) && Unmoved(first, v.disk, tree)
    && Untouched(v.pending, Source(tree)) && Untouched(v.pending, Dest(tree))
  }

  ghost predicate Away(env: Env, first: Names, v: Volume, tree: Tree) {
    && Moved(first, v.live, tree)
    && (Unmoved(first, v.disk, tree) || Moved(first, v.disk, tree))
    && Anchored(env, v)
  }

  ghost predicate VolumeInv(env: Env, first: Names, v: Volume) {
    && AllExpected(first, v.pending)
    && Coherent(v, Quarantine) && Coherent(v, Journal) && Coherent(v, Temp)
    && AllKnown(v)
    && v.Settled(TargetParent) && v.live.targetParent == first.targetParent
    && (first.quarantine.Directory? ==> v.disk.quarantine.Directory?)
    && (Untouched(v.pending, Journal) || v.disk.journal == Absent)
    && forall tree: Tree :: Still(first, v, tree) || Away(env, first, v, tree)
  }

  /** The quarantine directory has been made, or found not to be in the way. */
  ghost predicate FolderReady(s: State) {
    match s.pc
    case Idle | Done(_) => true
    case Check(_) | Mkdir(_) | Validate(true) | Link(true) | Unlink(true) | SyncQuarantine(true) | Revalidate(true) =>
      FolderOrAbsent(s.vol.live.quarantine)
    case _ => s.vol.live.quarantine.Directory?
  }

  ghost predicate DurableInv(env: Env, first: Names, s: State) {
    var v := s.vol;
    && VolumeInv(env, first, v)
    && FolderReady(s)
    && (s.pc.SyncQuarantine? || v.live.journal == Absent || v.live.temp != Absent || Committed(v))
    && match s.pc
       case Idle => true
       case Done(code) => code == 0 ==> Recorded(env, v)
       case Validate(_) => v.live.journal == Absent
       case Link(_) =>
         v.live.journal == Absent && Exact(env, v, Temp, 1) && v.inodes[v.live.temp.ino].synced
       case Unlink(_) =>
         v.live.temp == v.live.journal && Exact(env, v, Journal, 2) && Recorded(env, v)
       case SyncQuarantine(_) => JournalInstalled(env, v) && Recorded(env, v)
       case Revalidate(_) => Recorded(env, v) && v.live.temp == Absent && v.Settled(Journal)
       case Check(valid) => if valid then Recorded(env, v) && v.live.temp == Absent else v.live.journal == Absent
       case Mkdir(valid) => if valid then Recorded(env, v) && v.live.temp == Absent else v.live.journal == Absent
       case Create => v.live.journal == Absent
       case Write => v.live.journal == Absent
       case SyncTemp => v.live.journal == Absent
       case SyncObj => Recorded(env, v) && v.live.temp == Absent
       case Move(tree) =>
         && Recorded(env, v) && v.live.temp == Absent && v.Settled(Quarantine)
         && (tree == Target ==> v.Settled(Journal))
       case SyncSource(tree) =>
         && Recorded(env, v) && v.live.temp == Absent && v.Settled(Quarantine)
         && (if tree == Target then v.Settled(Journal) else !v.live.hostSource.Directory?)
       case SyncDest(tree) =>
         && Recorded(env, v) && v.live.temp == Absent && v.Settled(Quarantine)
         && (if tree == Target then v.Settled(Journal) else !v.live.hostSource.Directory?)
  }

  // Syncing a directory.

  lemma {:induction false} FlushJournalPath(first: Names, names: Names, changes: seq<Change>, folder: Folder, n: Name)
    requires AllExpected(first, changes) && JournalPath(n) && Holder(n) != folder
    ensures Flush(names, changes, folder).At(n) == names.At(n)
    ensures forall other: Names :: other.At(n) == names.At(n) ==>
              Flush(other, Others(changes, folder), Holder(n)).At(n) == Flush(names, changes, Holder(n)).At(n)
  {
    if changes != [] {
      var k := |changes| - 1;
      FlushJournalPath(first, names, changes[..k], folder, n);
      assert Expected(first, changes[k]);
      if !changes[k].Touches(folder) {
        assert (Others(changes[..k], folder) + [changes[k]])[..|Others(changes[..k], folder)|] == Others(changes[..k], folder);
      }
    }
  }

  lemma {:induction false} FlushSyncs(names: Names, changes: seq<Change>, folder: Folder, n: Name)
    requires Holder(n) == folder
    ensures Untouched(Others(changes, folder), n)
  {
    forall k | 0 <= k < |Others(changes, folder)| ensures !Others(changes, folder)[k].Edits(n) {
      assert !Others(changes, folder)[k].Touches(folder);
    }
  }

  /** Renames leave each tree at its source or at its destination, whichever of them are made. */
  lemma {:induction false} FlushTree(first: Names, names: Names, changes: seq<Change>, folder: Folder, tree: Tree)
    requires AllExpected(first, changes)
    requires Unmoved(first, names, tree) || Moved(first, names, tree)
    ensures var r := Flush(names, changes, folder); Unmoved(first, r, tree) || Moved(first, r, tree)
  {
    if changes != [] {
      var k := |changes| - 1;
      FlushTree(first, names, changes[..k], folder, tree);
      assert Expected(first, changes[k]);
    }
  }

  lemma {:induction false} SurviveTree(first: Names, names: Names, changes: seq<Change>, keep: seq<bool>, tree: Tree)
    requires |keep| == |changes| && AllExpected(first, changes)
    requires Unmoved(first, names, tree) || Moved(first, names, tree)
    ensures var r := Survive(names, changes, keep); Unmoved(first, r, tree) || Moved(first, r, tree)
  {
    if changes != [] {
      var k := |changes| - 1;
      SurviveTree(first, names, changes[..k], keep[..k], tree);
      assert Expected(first, changes[k]);
    }
  }

  lemma {:induction false} SyncKeepsCoherent(first: Names, v: Volume, folder: Folder, n: Name)
    requires AllExpected(first, v.pending) && JournalPath(n) && Coherent(v, n)
    ensures Coherent(v.SyncFolder(folder), n)
    ensures Holder(n) == folder ==> v.SyncFolder(folder).Settled(n)
  {
    var w := v.SyncFolder(folder);
    if Holder(n) == folder {
      FlushSyncs(v.disk, v.pending, folder, n);
      FlushUntouched(w.disk, w.pending, folder, n);
    } else {
      FlushJournalPath(first, v.disk, v.pending, folder, n);
    }
  }

  lemma {:induction false} SyncKeepsSettled(v: Volume, folder: Folder, n: Name)
    requires v.Settled(n)
    ensures v.SyncFolder(folder).Settled(n)
  {
    FlushUntouched(v.disk, v.pending, folder, n);
  }

  lemma {:induction false} SyncKeepsTree(env: Env, first: Names, v: Volume, folder: Folder, tree: Tree)
    requires AllExpected(first, v.pending) && (Still(first, v, tree) || Away(env, first, v, tree))
    ensures var w := v.SyncFolder(folder); Still(first, w, tree) || Away(env, first, w, tree)
  {
    hide Flush, Others, AllExpected;
    FlushTree(first, v.disk, v.pending, folder, tree);
    if Still(first, v, tree) {
      FlushUntouched(v.disk, v.pending, folder, Source(tree));
      FlushUntouched(v.disk, v.pending, folder, Dest(tree));
    } else {
      SyncKeepsSettled(v, folder, Journal);
      SyncKeepsSettled(v, folder, Quarantine);
    }
  }

  /** Other changes than to the folder stay pending. */
  lemma {:induction false} OthersKept(v: Volume, folder: Folder)
    requires AllKnown(v)
    ensures AllKnown(v.SyncFolder(folder))
    ensures Untouched(v.pending, Journal) ==> Untouched(v.SyncFolder(folder).pending, Journal)
    ensures folder == QuarantineFolder ==> Untouched(v.SyncFolder(folder).pending, Journal)
  {
    hide Flush;
    FlushKnown(v, v.disk, v.pending, folder);
    if folder == QuarantineFolder {
      FlushSyncs(v.disk, v.pending, folder, Journal);
    }
    if Untouched(v.pending, Journal) {
      FlushUntouched(v.disk, v.pending, folder, Journal);
    }
  }

  lemma {:induction false} SyncKeepsVolumeInv(env: Env, first: Names, v: Volume, folder: Folder)
    requires VolumeInv(env, first, v)
    ensures VolumeInv(env, first, v.SyncFolder(folder))
    ensures forall n :: v.Settled(n) ==> v.SyncFolder(folder).Settled(n)
    ensures forall n :: JournalPath(n) && Holder(n) == folder ==> v.SyncFolder(folder).Settled(n)
  {
    hide Flush, Others, Still, Away, Coherent, AllKnown, Untouched, Expected;
    var w := v.SyncFolder(folder);
    forall n | v.Settled(n) ensures w.Settled(n) {
      SyncKeepsSettled(v, folder, n);
    }
    forall n | JournalPath(n) ensures Coherent(w, n) && (Holder(n) == folder ==> w.Settled(n)) {
      SyncKeepsCoherent(first, v, folder, n);
    }
    forall tree: Tree ensures Still(first, w, tree) || Away(env, first, w, tree) {
      assert Still(first, v, tree) || Away(env, first, v, tree);
      SyncKeepsTree(env, first, v, folder, tree);
    }
    OthersKept(v, folder);
    if first.quarantine.Directory? {
      FlushQuarantine(first, v.disk, v.pending, folder);
    }
    if folder != QuarantineFolder {
      FlushJournalPath(first, v.disk, v.pending, folder, Journal);
      assert w.disk.At(Journal) == v.disk.At(Journal);
    }
  }

  lemma {:induction false} FlushKnown(v: Volume, names: Names, changes: seq<Change>, folder: Folder)
    requires Known(v, names.journal) && Known(v, names.temp)
    requires forall k :: 0 <= k < |changes| && changes[k].Put? ==> Known(v, changes[k].entry)
    ensures var r := Flush(names, changes, folder); Known(v, r.journal) && Known(v, r.temp)
  {
    if changes != [] {
      FlushKnown(v, names, changes[..|changes| - 1], folder);
      var rest := Flush(names, changes[..|changes| - 1], folder);
      var r := changes[|changes| - 1].Apply(rest);
      assert r.At(Journal) == r.journal && r.At(Temp) == r.temp;
    }
  }

  lemma {:induction false} FlushQuarantine(first: Names, names: Names, changes: seq<Change>, folder: Folder)
    requires AllExpected(first, changes) && names.quarantine.Directory?
    ensures Flush(names, changes, folder).quarantine.Directory?
  {
    if changes != [] {
      FlushQuarantine(first, names, changes[..|changes| - 1], folder);
      assert Expected(first, changes[|changes| - 1]);
      var rest := Flush(names, changes[..|changes| - 1], folder);
      var r := changes[|changes| - 1].Apply(rest);
      assert r.At(Quarantine) == r.quarantine && rest.At(Quarantine) == rest.quarantine;
    }
  }

  // Steps.

  lemma {:induction false} DoCoherent(v: Volume, change: Change, n: Name)
    requires Coherent(v, n)
    ensures Coherent(v.Do(change), n)
  {
    var w := v.Do(change);
    assert w.pending[..|w.pending| - 1] == v.pending;
  }

  /** Journal bookkeeping while no tree depends on it. */
  lemma {:induction false} PutKeepsVolumeInv(env: Env, first: Names, v: Volume, change: Change)
    requires VolumeInv(env, first, v)
    requires change.Put? && Expected(first, change) && Known(v, change.entry)
    requires change.name != Temp ==> v.live.At(change.name) == Absent
    requires change.name == Journal ==> v.disk.journal == Absent
    ensures VolumeInv(env, first, v.Do(change))
    ensures forall n :: v.Settled(n) && n != change.name ==> v.Do(change).Settled(n)
  {
    hide Flush, Others;
    var w := v.Do(change);
    forall n | JournalPath(n) ensures Coherent(w, n) {
      DoCoherent(v, change, n);
    }
    assert w.live.At(Journal) == w.live.journal && w.live.At(Temp) == w.live.temp && w.live.At(Quarantine) == w.live.quarantine;
    assert w.live.At(TargetParent) == w.live.targetParent;
    forall tree: Tree ensures Still(first, w, tree) || Away(env, first, w, tree) {
      assert Still(first, v, tree) || Away(env, first, v, tree);
    }
  }

  lemma {:induction false} MoveKeepsVolumeInv(env: Env, first: Names, v: Volume, tree: Tree)
    requires VolumeInv(env, first, v) && Anchored(env, v)
    requires v.live.At(Source(tree)).Directory? && v.live.At(Dest(tree)) == Absent
    ensures VolumeInv(env, first, v.Do(Rename(Source(tree), Dest(tree), v.live.At(Source(tree)).id)))
  {
    hide Flush, Others;
    var change := Rename(Source(tree), Dest(tree), v.live.At(Source(tree)).id);
    var w := v.Do(change);
    assert Still(first, v, tree) || Away(env, first, v, tree);
    assert Expected(first, change);
    forall n | JournalPath(n) ensures Coherent(w, n) {
      DoCoherent(v, change, n);
    }
    forall other: Tree ensures Still(first, w, other) || Away(env, first, w, other) {
      assert Still(first, v, other) || Away(env, first, v, other);
    }
  }

  /** Content and fsync marks of files do not move entries; only a recorded journal must stay exact. */
  lemma {:induction false} InodesKeepVolumeInv(env: Env, first: Names, v: Volume, w: Volume)
    requires VolumeInv(env, first, v)
    requires w == v.(inodes := w.inodes) && v.inodes.Keys <= w.inodes.Keys
    requires Recorded(env, v) ==> Recorded(env, w)
    ensures VolumeInv(env, first, w)
    ensures forall n :: v.Settled(n) <==> w.Settled(n)
  {
    forall tree: Tree ensures Still(first, w, tree) || Away(env, first, w, tree) {
      assert Still(first, v, tree) || Away(env, first, v, tree);
    }
  }

  lemma {:induction false} MissingJournalIsMissingOnDisk(env: Env, first: Names, v: Volume)
    requires VolumeInv(env, first, v)
    requires v.live.journal == Absent || !v.Settled(Journal)
    ensures v.disk.journal == Absent
  {
    if Untouched(v.pending, Journal) {
      FlushUntouched(v.disk, v.pending, QuarantineFolder, Journal);
    }
  }

  lemma {:induction false} FileStepKeepsInv(env: Env, first: Names, s: State, t: State)
    requires DurableInv(env, first, s) && Step(env, s, t)
    requires s.pc.Idle? || s.pc.Validate? || s.pc.Revalidate?
    ensures DurableInv(env, first, t)
  {
    hide VolumeInv, Flush, Others, Creates, Writes, TreeAllowed;
    InodesKeepVolumeInv(env, first, s.vol, t.vol);
  }

  lemma {:induction false} LinkStepKeepsInv(env: Env, first: Names, s: State, t: State)
    requires DurableInv(env, first, s) && Step(env, s, t)
    requires s.pc.Link? || s.pc.Unlink? || s.pc.SyncQuarantine?
    ensures DurableInv(env, first, t)
  {
    hide Still, Away, Coherent, Creates, Writes, Flush, Others, Opening, TreeAllowed;
    var v := s.vol;
    match s.pc
    case Link(_) =>
      MissingJournalIsMissingOnDisk(env, first, v);
      PutKeepsVolumeInv(env, first, v, Put(Journal, v.live.temp));
    case Unlink(_) =>
      PutKeepsVolumeInv(env, first, v, Put(Temp, Absent));
    case SyncQuarantine(_) =>
      SyncKeepsVolumeInv(env, first, v, QuarantineFolder);
  }

  lemma {:induction false} JournalStepKeepsInv(env: Env, first: Names, s: State, t: State)
    requires DurableInv(env, first, s) && Step(env, s, t)
    requires s.pc.Idle? || s.pc.Validate? || s.pc.Link? || s.pc.Unlink? || s.pc.SyncQuarantine? || s.pc.Revalidate?
    ensures DurableInv(env, first, t)
  {
    hide DurableInv, Step;
    if s.pc.Idle? || s.pc.Validate? || s.pc.Revalidate? {
      FileStepKeepsInv(env, first, s, t);
    } else {
      LinkStepKeepsInv(env, first, s, t);
    }
  }

  lemma {:induction false} WriteStepKeepsInv(env: Env, first: Names, s: State, t: State)
    requires DurableInv(env, first, s) && Step(env, s, t)
    requires s.pc.Check? || s.pc.Mkdir? || s.pc.Create? || s.pc.Write? || s.pc.SyncTemp?
    ensures DurableInv(env, first, t)
  {
    hide Still, Away, Coherent, Opening;
    var v, w := s.vol, t.vol;
    match s.pc
    case Mkdir(_) =>
      if !v.live.quarantine.Present() {
        PutKeepsVolumeInv(env, first, v, Put(Quarantine, Directory(0)));
      }
    case Create =>
      if !v.live.temp.Present() {
        var ino :| ino !in v.inodes && w == v.(inodes := v.inodes[ino := Inode(true, 0x180, env.euid, [], false, 0)])
                                             .Do(Put(Temp, File(ino)));
        var u := v.(inodes := v.inodes[ino := Inode(true, 0x180, env.euid, [], false, 0)]);
        InodesKeepVolumeInv(env, first, v, u);
        PutKeepsVolumeInv(env, first, u, Put(Temp, File(ino)));
      }
    case _ =>
      InodesKeepVolumeInv(env, first, v, w);
  }

  lemma {:induction false} MoveStepKeepsInv(env: Env, first: Names, s: State, t: State)
    requires DurableInv(env, first, s) && Step(env, s, t)
    requires s.pc.SyncObj? || s.pc.Move? || s.pc.SyncSource? || s.pc.SyncDest?
    ensures DurableInv(env, first, t)
  {
    hide VolumeInv, Creates, Writes, Opening, Flush, Others, TreeAllowed;
    var v := s.vol;
    match s.pc
    case SyncObj =>
      SyncKeepsVolumeInv(env, first, v, ObjFolder);
    case Move(tree) =>
      if v.live.At(Source(tree)).Directory? && !v.live.At(Dest(tree)).Present() {
        MoveKeepsVolumeInv(env, first, v, tree);
      }
    case SyncSource(tree) =>
      SyncKeepsVolumeInv(env, first, v, Holder(Source(tree)));
    case SyncDest(tree) =>
      SyncKeepsVolumeInv(env, first, v, QuarantineFolder);
  }

  // Power loss.

  lemma {:induction false} SurviveKnown(v: Volume, names: Names, changes: seq<Change>, keep: seq<bool>)
    requires |keep| == |changes|
    requires Known(v, names.journal) && Known(v, names.temp)
    requires forall k :: 0 <= k < |changes| && changes[k].Put? ==> Known(v, changes[k].entry)
    ensures var r := Survive(names, changes, keep); Known(v, r.journal) && Known(v, r.temp)
  {
    if changes != [] {
      var k := |changes| - 1;
      SurviveKnown(v, names, changes[..k], keep[..k]);
      var r := changes[k].Apply(Survive(names, changes[..k], keep[..k]));
      assert r.At(Journal) == r.journal && r.At(Temp) == r.temp;
    }
  }

  lemma {:induction false} SurviveQuarantine(first: Names, names: Names, changes: seq<Change>, keep: seq<bool>)
    requires |keep| == |changes| && AllExpected(first, changes) && names.quarantine.Directory?
    ensures Survive(names, changes, keep).quarantine.Directory?
  {
    if changes != [] {
      var k := |changes| - 1;
      SurviveQuarantine(first, names, changes[..k], keep[..k]);
      assert Expected(first, changes[k]);
      var rest := Survive(names, changes[..k], keep[..k]);
      var r := changes[k].Apply(rest);
      assert r.At(Quarantine) == r.quarantine && rest.At(Quarantine) == rest.quarantine;
    }
  }

  /** A tree found after power loss is where it was first, or at its destination behind what anchors it. */
  lemma {:induction false} PowerLossTree(env: Env, first: Names, v: Volume, r: Volume, keep: seq<bool>, tree: Tree)
    requires VolumeInv(env, first, v) && first == first.Reachable()
    requires LosesPowerTo(v, r) && |keep| == |v.pending| && r.live == Survive(v.disk, v.pending, keep).Reachable()
    ensures Unmoved(first, r.live, tree) || (Moved(first, r.live, tree) && Recorded(env, r) && r.live.quarantine.Directory?)
  {
    var names := Survive(v.disk, v.pending, keep);
    assert Still(first, v, tree) || Away(env, first, v, tree);
    SurviveTree(first, v.disk, v.pending, keep, tree);
    if first.quarantine.Directory? {
      SurviveQuarantine(first, v.disk, v.pending, keep);
    }
    if Still(first, v, tree) {
      SurviveUntouched(v.disk, v.pending, keep, Source(tree));
      SurviveUntouched(v.disk, v.pending, keep, Dest(tree));
    } else {
      SurviveUntouched(v.disk, v.pending, keep, Journal);
      SurviveUntouched(v.disk, v.pending, keep, Quarantine);
    }
  }

  lemma {:induction false} PowerLossKeepsInv(env: Env, first: Names, s: State, t: State)
    requires DurableInv(env, first, s) && first == first.Reachable()
    requires PowerLoss(s, t)
    ensures DurableInv(env, first, t)
    ensures DurableSafe(env, first, t.vol)
  {
    hide Survive, Others;
    var v, r := s.vol, t.vol;
    var keep: seq<bool> :| |keep| == |v.pending| && r.live == Survive(v.disk, v.pending, keep).Reachable();
    forall tree: Tree
      ensures Still(first, r, tree) || Away(env, first, r, tree)
      ensures Unmoved(first, r.live, tree) || (Moved(first, r.live, tree) && JournalNamed(env, r) && r.live.quarantine.Directory?)
    {
      PowerLossTree(env, first, v, r, keep, tree);
    }
    SurviveKnown(v, v.disk, v.pending, keep);
    SurviveUntouched(v.disk, v.pending, keep, TargetParent);
    if first.quarantine.Directory? {
      SurviveQuarantine(first, v.disk, v.pending, keep);
    }
  }

  lemma {:induction false} KillKeepsDurable(env: Env, first: Names, s: State, t: State)
    requires DurableInv(env, first, s) && Kill(s, t) && !Hazard(s)
    ensures DurableInv(env, first, t)
  {
  }

  lemma {:induction false} NextKeepsInv(env: Env, first: Names, s: State, t: State)
    requires DurableInv(env, first, s) && first == first.Reachable() && GuardedNext(env, s, t)
    ensures DurableInv(env, first, t)
  {
    hide DurableInv, Determined, Creates, Writes, PowerLoss, Kill, Hazard;
    if PowerLoss(s, t) {
      PowerLossKeepsInv(env, first, s, t);
    } else if Kill(s, t) && !Hazard(s) {
      KillKeepsDurable(env, first, s, t);
    } else {
      match s.pc
      case Check(_) | Mkdir(_) | Create | Write | SyncTemp => WriteStepKeepsInv(env, first, s, t);
      case SyncObj | Move(_) | SyncSource(_) | SyncDest(_) => MoveStepKeepsInv(env, first, s, t);
      case _ => JournalStepKeepsInv(env, first, s, t);
    }
  }

  lemma {:induction false} GuardedRunsInv(env: Env, trace: seq<State>)
    requires GuardedRuns(env, trace) && AtRest(trace[0].vol)
    ensures DurableInv(env, trace[0].vol.live, trace[|trace| - 1])
  {
    if |trace| > 1 {
      var n := |trace| - 1;
      GuardedRunsInv(env, trace[..n]);
      assert trace[..n][n - 1] == trace[n - 1];
      assert GuardedNext(env, trace[n - 1], trace[n - 1 + 1]);
      NextKeepsInv(env, trace[0].vol.live, trace[n - 1], trace[n]);
    }
  }

  /** Losing power at any point of any guarded series of runs, with any subset of the unsynced
      changes on disk, finds each tree as it was first or moved behind a durable exact journal. */
  lemma {:induction false} PowerLossSafety(env: Env, trace: seq<State>, found: Volume)
    requires GuardedRuns(env, trace) && AtRest(trace[0].vol)
    requires LosesPowerTo(trace[|trace| - 1].vol, found)
    ensures DurableSafe(env, trace[0].vol.live, found)
  {
    GuardedRunsInv(env, trace);
    PowerLossKeepsInv(env, trace[0].vol.live, trace[|trace| - 1], State(found, Idle));
  }

  // The window is real.

  /** The disk found when only the kept changes reached it and file contents did. */
  function PowerCut(v: Volume, keep: seq<bool>): Volume
    requires |keep| == |v.pending|
  {
    var names := Survive(v.disk, v.pending, keep).Reachable();
    Volume(names, names, [], map i | i in v.inodes :: v.inodes[i].(synced := true))
  }

  /** Power is lost just after a rename, the only unsynced change that reached the disk. */
  function OnlyLast(n: nat): (r: seq<bool>)
    requires 0 < n
    ensures |r| == n
  {
    seq(n, k => k == n - 1)
  }

  lemma {:induction false} SurviveNone(names: Names, changes: seq<Change>, keep: seq<bool>)
    requires |keep| == |changes| && forall k :: 0 <= k < |keep| ==> !keep[k]
    ensures Survive(names, changes, keep) == names
  {
    if changes != [] {
      SurviveNone(names, changes[..|changes| - 1], keep[..|changes| - 1]);
    }
  }

  lemma {:induction false} SurviveOnlyLast(names: Names, changes: seq<Change>)
    requires changes != []
    ensures Survive(names, changes, OnlyLast(|changes|)) == changes[|changes| - 1].Apply(names)
  {
    var k := |changes| - 1;
    SurviveNone(names, changes[..k], OnlyLast(|changes|)[..k]);
  }

  /** A kill and what may follow it. */
  ghost predicate Aftermath(env: Env, s: State, after: seq<State>) {
    && 1 < |after|
    && after[0] == s
    && Kill(s, after[1])
    && forall k :: 1 <= k < |after| - 1 ==> GuardedNext(env, after[k], after[k + 1])
  }

  ghost predicate HarmFound(env: Env, first: Names, s: State, after: seq<State>, found: Volume) {
    && Aftermath(env, s, after)
    && LosesPowerTo(after[|after| - 1].vol, found)
    && !DurableSafe(env, first, found)
  }

  ghost predicate KillHarms(env: Env, first: Names, s: State) {
    exists after: seq<State>, found: Volume :: HarmFound(env, first, s, after, found)
  }

  /** What a run killed in the window leaves. */
  lemma {:induction false} HazardLeaves(env: Env, first: Volume, s: State)
    requires Migratable(first) && DurableInv(env, first.live, s) && Hazard(s)
    ensures var v := s.vol;
            && v.live.journal.Present() && Exact(env, v, Journal, 1) && v.live.temp == Absent && v.disk.journal == Absent && AllExpected(first.live, v.pending)
            && FolderOrAbsent(v.live.quarantine)
            && v.live.hostDest == Absent && v.live.hostSource == first.live.hostSource && first.live.hostSource.Directory?
            && TreeAllowed(v.live, true, Host) && TreeAllowed(v.live, true, Target)
  {
    hide Flush, Coherent, AllExpected;
    var v := s.vol;
    MissingJournalIsMissingOnDisk(env, first.live, v);
    assert Still(first.live, v, Host) || Away(env, first.live, v, Host);
    assert Still(first.live, v, Target) || Away(env, first.live, v, Target);
  }

  /** The next run takes the journal as installed and comes to the moves. */
  lemma {:induction false} HazardRestart(env: Env, first: Volume, s: State) returns (run: seq<State>)
    requires Migratable(first) && DurableInv(env, first.live, s) && Hazard(s)
    ensures |run| == 4 && run[0] == State(s.vol, Idle) && run[3].pc == SyncObj
    ensures forall k :: 0 <= k < 3 ==> Step(env, run[k], run[k + 1])
    ensures var u := run[3].vol;
            && u.disk.journal == Absent && AllExpected(first.live, u.pending)
            && u.live.hostDest == Absent && u.live.hostSource == first.live.hostSource && first.live.hostSource.Directory?
  {
    hide DurableInv, Migratable, Hazard, Exact, Creates, Writes;
    HazardLeaves(env, first, s);
    var v := s.vol;
    var killed := State(v, Idle);
    var check := Determined(env, killed);
    assert check == State(v.SyncFile(v.live.journal), Check(true));
    var mkdir := Determined(env, check);
    assert mkdir.pc == Mkdir(true);
    var syncObj := Determined(env, mkdir);
    run := [killed, check, mkdir, syncObj];
  }

  /** It syncs the object directory only, and moves the host tree. */
  lemma {:induction false} HazardMoves(env: Env, first: Volume, s: State) returns (run: seq<State>)
    requires s.pc == SyncObj && s.vol.disk.journal == Absent && AllExpected(first.live, s.vol.pending)
    requires s.vol.live.hostDest == Absent && s.vol.live.hostSource == first.live.hostSource && first.live.hostSource.Directory?
    ensures |run| == 3 && run[0] == s && Step(env, run[0], run[1]) && Step(env, run[1], run[2])
    ensures var t := run[2].vol;
            && t.disk.journal == Absent
            && t.pending != []
            && t.pending[|t.pending| - 1] == Rename(HostSource, HostDest, first.live.hostSource.id)
  {
    var u := s.vol;
    var move := Determined(env, s);
    FlushJournalPath(first.live, u.disk, u.pending, ObjFolder, Journal);
    assert move.vol.disk.At(Journal) == u.disk.At(Journal);
    run := [s, move, Determined(env, move)];
  }

  lemma {:induction false} HazardRun(env: Env, first: Volume, s: State) returns (after: seq<State>)
    requires Migratable(first) && DurableInv(env, first.live, s) && Hazard(s)
    ensures Aftermath(env, s, after) && 2 < |after|
    ensures var t := after[|after| - 1].vol;
            && t.disk.journal == Absent
            && t.pending != []
            && first.live.hostSource.Directory?
            && t.pending[|t.pending| - 1] == Rename(HostSource, HostDest, first.live.hostSource.id)
  {
    hide Migratable, DurableInv, Hazard, Step, PowerLoss, AllExpected;
    var restart := HazardRestart(env, first, s);
    var moves := HazardMoves(env, first, restart[3]);
    after := [s, restart[0], restart[1], restart[2], restart[3], moves[1], moves[2]];
    assert Step(env, restart[2], restart[2 + 1]) && Step(env, restart[1], restart[1 + 1]) && Step(env, restart[0], restart[0 + 1]);
    assert forall k :: 1 <= k < |after| - 1 ==> Step(env, after[k], after[k + 1]);
  }

  lemma {:induction false} HazardHarms(env: Env, first: Volume, s: State)
    requires Migratable(first) && DurableInv(env, first.live, s) && Hazard(s)
    ensures KillHarms(env, first.live, s)
  {
    var after := HazardRun(env, first, s);
    var t := after[|after| - 1].vol;
    var keep := OnlyLast(|t.pending|);
    var found := PowerCut(t, keep);
    SurviveOnlyLast(t.disk, t.pending);
    assert LosesPowerTo(t, found);
    assert found.live.hostSource == Absent && found.live.journal == Absent by {
      var names := Rename(HostSource, HostDest, first.live.hostSource.id).Apply(t.disk);
      assert names.At(HostSource) == Absent && names.At(Journal) == t.disk.At(Journal);
    }
    assert !Unmoved(first.live, found.live, Host);
    assert HarmFound(env, first.live, s, after, found);
  }

  /** A kill outside the window harms nothing, however the runs go on. */
  lemma {:induction false} SafeKillHarmsNothing(env: Env, first: Volume, s: State, after: seq<State>)
    requires AtRest(first) && DurableInv(env, first.live, s) && !Hazard(s)
    requires Aftermath(env, s, after)
    ensures DurableInv(env, first.live, after[|after| - 1])
  {
    var n := |after| - 1;
    if n == 1 {
      NextKeepsInv(env, first.live, s, after[1]);
    } else {
      SafeKillHarmsNothing(env, first, s, after[..n]);
      assert after[..n][n - 1] == after[n - 1];
      assert GuardedNext(env, after[n - 1], after[n - 1 + 1]);
      NextKeepsInv(env, first.live, after[n - 1], after[n]);
    }
  }

  /** Exactly which kills can, with a later power loss, leave a quarantined tree without its
      journal: those between unlinking the temporary and syncing the quarantine directory, while
      the journal's entry is not on disk and the host tree is still to be moved. */
  lemma {:induction false} KillWindow(env: Env, trace: seq<State>)
    requires GuardedRuns(env, trace) && Migratable(trace[0].vol)
    ensures KillHarms(env, trace[0].vol.live, trace[|trace| - 1]) <==> Hazard(trace[|trace| - 1])
  {
    var first, s := trace[0].vol, trace[|trace| - 1];
    GuardedRunsInv(env, trace);
    if Hazard(s) {
      HazardHarms(env, first, s);
    } else if KillHarms(env, first.live, s) {
      var after: seq<State>, found: Volume :| HarmFound(env, first.live, s, after, found);
      SafeKillHarmsNothing(env, first, s, after);
      PowerLossKeepsInv(env, first.live, after[|after| - 1], State(found, Idle));
    }
  }

  /** A fresh directory's first run up to a complete temporary. */
  lemma {:induction false} FirstTemporary(env: Env, first: Volume) returns (trace: seq<State>, ino: nat)
    requires Migratable(first)
    ensures GuardedRuns(env, trace) && trace[0].vol == first
    ensures var s := trace[|trace| - 1];
            && s.pc == SyncTemp
            && s.vol.live.journal == Absent && s.vol.live.temp == File(ino)
            && s.vol.live.hostSource == first.live.hostSource
            && ino in s.vol.inodes
            && s.vol.inodes[ino] == Inode(true, 0x180, env.euid, env.payload, false, 0)
  {
    hide Determined, Creates, Migratable;
    trace, ino := FirstCreate(env, first);
    var v, n := trace[4].vol, |env.payload|;
    assert env.payload[..n] == env.payload;
    var full := v.inodes[ino].(content := env.payload[..n], synced := false);
    var sync := State(v.(inodes := v.inodes[ino := full]), SyncTemp);
    assert Writes(env, trace[4], sync);
    var run := trace;
    trace := run + [sync];
    forall k | 0 <= k < |trace| - 1 ensures GuardedNext(env, trace[k], trace[k + 1]) {
      if k < 4 {
        assert trace[k] == run[k] && trace[k + 1] == run[k + 1];
      }
    }
  }

  /** The window opens in the very first run over any object directory with a host tree. */
  lemma {:induction false} WindowIsReached(env: Env, first: Volume) returns (trace: seq<State>)
    requires Migratable(first) && first.live.hostSource.Directory?
    ensures GuardedRuns(env, trace) && trace[0].vol == first && Hazard(trace[|trace| - 1])
  {
    var start, ino := FirstTemporary(env, first);
    var n := |start|;
    var validate := Determined(env, start[n - 1]);
    assert Exact(env, validate.vol, Temp, 1);
    var link := Determined(env, validate);
    var unlink := Determined(env, link);
    var window := Determined(env, unlink);
    assert unlink.vol.pending[|unlink.vol.pending| - 1] == Put(Journal, File(ino));
    assert window.vol.pending[|unlink.vol.pending| - 1].Edits(Journal);
    var rest := [start[n - 1], validate, link, unlink, window];
    assert forall k :: 0 <= k < |rest| - 1 ==> Step(env, rest[k], rest[k + 1]);
    trace := start + rest[1..];
    forall k | 0 <= k < |trace| - 1 ensures GuardedNext(env, trace[k], trace[k + 1]) {
      if k < n - 1 {
        assert trace[k] == start[k] && trace[k + 1] == start[k + 1];
      } else {
        assert trace[k] == rest[k - n + 1] && trace[k + 1] == rest[k - n + 1 + 1];
      }
    }
  }
}
