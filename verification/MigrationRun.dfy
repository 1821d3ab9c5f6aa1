/**
 quarantine_moved_cargo as it is written: calls that change the volume one after the
 other. A ghost trace records the volume after every call and is proved to be a run of
 the protocol, so what is proved of the protocol holds of a kill after any of them.
 */
module MigrationRun {
  import opened MigrationFs
  import opened MigrationProtocol
  import opened MigrationSafety
  import opened MigrationConvergence
  import opened MigrationVerdict

  /** The file behind the entry holds the payload, and still does after any power loss. */
  ghost predicate HoldsForGood(env: Env, v: Volume, entry: Entry) {
    && entry.File? && entry.ino in v.inodes && v.inodes[entry.ino].content == env.payload
    && forall found: Volume :: LosesPowerTo(v, found) ==> entry.ino in found.inodes && found.inodes[entry.ino] == v.inodes[entry.ino]
  }

  class Migration {
    const env: Env
    var vol: Volume
    ghost var trace: seq<State>

    ghost predicate At(pc: Pc)
      reads this
    {
      Uninterrupted(env, trace) && trace[|trace| - 1] == State(vol, pc)
    }

    constructor (env: Env, vol: Volume)
      ensures this.env == env && this.vol == vol && trace == [State(vol, Idle)]
      ensures At(Idle)
    {
      this.env := env;
      this.vol := vol;
      trace := [State(vol, Idle)];
    }

    ghost method Record(pc: Pc)
      requires Uninterrupted(env, trace) && Step(env, trace[|trace| - 1], State(vol, pc))
      modifies this`trace
      ensures At(pc) && trace == old(trace) + [State(vol, pc)]
    {
      trace := trace + [State(vol, pc)];
      forall k | 0 <= k < |trace| - 1 ensures Step(env, trace[k], trace[k + 1]) {
        if k < |old(trace)| - 1 {
          RunStep(env, old(trace), k);
        }
      }
    }

    /** Opened without following a link, the file must be regular, of mode 0600, the caller's, with
        the given link count, and hold the payload; then it is synced, so that from here on no power
        loss can take the payload from it. */
    method ValidateExactJournalFile(name: Name, links: nat) returns (ok: bool)
      modifies this`vol
      ensures ok <==> Exact(env, old(vol), name, links)
      ensures vol == if ok then old(vol).SyncFile(old(vol).live.At(name)) else old(vol)
      ensures ok ==> HoldsForGood(env, vol, vol.live.At(name))
    {
      var entry := vol.live.At(name);
      match entry
      case Absent => return false;
      case Symlink(_) => return false;
      case Directory(_) => return false;
      case File(ino) =>
        if ino !in vol.inodes {
          return false;
        }
        var metadata := vol.inodes[ino];
        if !metadata.regular || metadata.mode != 0x180 || metadata.owner != env.euid || vol.Links(ino) != links {
          return false;
        }
        if metadata.content != env.payload {
          return false;
        }
        vol := vol.SyncFile(entry);
        return true;
    }

    /** The end of both ways to an installed journal. */
    method UnlinkTemporary(early: bool) returns (ok: bool)
      requires At(Unlink(early))
      modifies this
      ensures old(trace) <= trace
      ensures At(if !ok then Done(2) else if early then Check(true) else SyncObj)
    {
      hide Flush, Others, Opening, Creates, Writes, TreeAllowed;
      vol := vol.Do(Put(Temp, Absent));
      Record(SyncQuarantine(early));
      vol := vol.SyncFolder(QuarantineFolder);
      Record(Revalidate(early));
      ok := ValidateExactJournalFile(Journal, 1);
      Record(if !ok then Done(2) else if early then Check(true) else SyncObj);
    }

    method InstallExactJournalTemp(early: bool) returns (ok: bool)
      requires At(Validate(early))
      modifies this
      ensures old(trace) <= trace
      ensures At(if !ok then Done(2) else if early then Check(true) else SyncObj)
    {
      ok := ValidateExactJournalFile(Temp, 1);
      if !ok {
        Record(Done(2));
        return;
      }
      Record(Link(early));
      if vol.live.journal.Present() {
        ok := false;
        Record(Done(2));
        return;
      }
      vol := vol.Do(Put(Journal, vol.live.temp));
      Record(Unlink(early));
      ok := UnlinkTemporary(early);
    }

    method RecoverLinkedJournalTemp() returns (ok: bool)
      requires At(Idle)
      requires !QuarantineUnsafe(vol.live) && vol.live.journal.Present() && vol.live.temp.Present()
      modifies this
      ensures old(trace) <= trace
      ensures At(if ok then Check(true) else Done(2))
    {
      var temp, journal := vol.live.temp, vol.live.journal;
      if !Exact(env, vol, Temp, 2) || !Exact(env, vol, Journal, 2) || temp != journal {
        ok := false;
        Record(Done(2));
        return;
      }
      ok := ValidateExactJournalFile(Journal, 2);
      Record(Unlink(true));
      ok := UnlinkTemporary(true);
    }

    /** Some inode number above all in use. */
    method UnusedInode() returns (ino: nat)
      ensures ino !in vol.inodes
    {
      var left := vol.inodes.Keys;
      ino := 0;
      while left != {}
        invariant left <= vol.inodes.Keys
        invariant forall i :: i in vol.inodes.Keys && i !in left ==> i < ino
        decreases left
      {
        var i :| i in left;
        left := left - {i};
        if ino <= i {
          ino := i + 1;
        }
      }
    }

    /** Writes of the sizes the kernel happens to accept, then fsync. */
    method WriteTemporary(ino: nat, sizes: nat -> nat)
      requires At(Write) && vol.live.temp == File(ino) && ino in vol.inodes && vol.inodes[ino].content == []
      modifies this
      ensures old(trace) <= trace
      ensures At(Validate(false))
    {
      var written := 0;
      while written < |env.payload|
        invariant 0 <= written <= |env.payload|
        invariant old(trace) <= trace
        invariant vol.live.temp == File(ino) && ino in vol.inodes
        invariant |vol.inodes[ino].content| == written
        invariant At(if written == |env.payload| then SyncTemp else Write)
      {
        var n := if written < sizes(written) <= |env.payload| then sizes(written) else |env.payload|;
        ghost var before := trace[|trace| - 1];
        vol := vol.(inodes := vol.inodes[ino := vol.inodes[ino].(content := env.payload[..n], synced := false)]);
        written := n;
        assert Writes(env, before, State(vol, if n == |env.payload| then SyncTemp else Write));
        Record(if n == |env.payload| then SyncTemp else Write);
      }
      vol := vol.SyncFile(vol.live.temp);
      Record(Validate(false));
    }

    method MoveTree(tree: Tree) returns (ok: bool)
      requires At(Move(tree))
      modifies this
      ensures old(trace) <= trace
      ensures At(if !ok then Done(2) else if tree == Host then Move(Target) else Done(0))
    {
      hide Flush, Others, Opening, Creates, Writes, TreeAllowed;
      var source := vol.live.At(Source(tree));
      ok := true;
      if source.Directory? {
        if vol.live.At(Dest(tree)).Present() {
          ok := false;
          Record(Done(2));
          return;
        }
        vol := vol.Do(Rename(Source(tree), Dest(tree), source.id));
      }
      Record(SyncSource(tree));
      if tree == Host || vol.live.targetParent.IsFolder() {
        vol := vol.SyncFolder(Holder(Source(tree)));
      }
      Record(SyncDest(tree));
      vol := vol.SyncFolder(QuarantineFolder);
      Record(if tree == Host then Move(Target) else Done(0));
    }

    /** The command from the choice of a journal branch on. Every call it makes is a step of the
        protocol. It returns 0 for exactly the acceptable volumes, with every tree moved; on any other
        it returns 2, moves nothing, and without a record changes nothing. */
    method QuarantineMovedCargo(sizes: nat -> nat) returns (code: nat)
      requires trace == [State(vol, Idle)]
      modifies this
      ensures At(Done(code)) && trace[0] == State(old(vol), Idle)
      ensures AtRest(old(vol)) ==> Safe(env, old(vol).live, vol)
      ensures Migratable(old(vol)) ==> code == 0 && Migrated(env, old(vol).live, vol)
      ensures code == 0 <==> Acceptable(env, old(vol))
      ensures code == 0 ==> AllMoved(old(vol).live, vol.live) && (AtRest(old(vol)) ==> JournalInstalled(env, vol))
      ensures code != 0 ==> code == 2 && Unmoved(old(vol).live, vol.live, Host) && Unmoved(old(vol).live, vol.live, Target)
      ensures code != 0 && NothingFound(old(vol).live) ==> vol == old(vol)
    {
      hide Acceptable, AllMoved, AtRest, Safe, JournalInstalled, Unmoved, Step, Migratable, Migrated;
      code := Run(sizes);
      EndsExactly(env, trace);
      if AtRest(old(vol)) && code == 0 {
        EndsInstalled(env, trace);
      }
      assert forall k :: 0 <= k < |trace| - 1 ==> Step(env, trace[k], trace[k + 1]) || Kill(trace[k], trace[k + 1]);
      if AtRest(old(vol)) {
        KillSafety(env, trace);
      }
      if Migratable(old(vol)) {
        Convergence(env, [trace[0]], trace);
        NoPartialTemp(env, old(vol));
      }
    }

    /** The journal found, taken up from an earlier run, or still to be written. */
    method OpenJournal() returns (ok: bool, valid: bool)
      requires At(Idle)
      modifies this
      ensures old(trace) <= trace
      ensures At(if ok then Check(valid) else Done(2))
    {
      ok, valid := false, false;
      if QuarantineUnsafe(vol.live) {
        Record(Done(2));
        return;
      }
      var journalPresent, tempPresent := vol.live.journal.Present(), vol.live.temp.Present();
      if journalPresent && tempPresent {
        valid := RecoverLinkedJournalTemp();
        ok := valid;
      } else if journalPresent {
        valid := ValidateExactJournalFile(Journal, 1);
        ok := valid;
        Record(if ok then Check(valid) else Done(2));
      } else if tempPresent {
        Record(Validate(true));
        valid := InstallExactJournalTemp(true);
        ok := valid;
      } else {
        ok := true;
        Record(Check(false));
      }
    }

    method CreateJournal(sizes: nat -> nat) returns (ok: bool)
      requires At(Create)
      modifies this
      ensures old(trace) <= trace
      ensures At(if ok then SyncObj else Done(2))
    {
      ok := false;
      if vol.live.temp.Present() {
        Record(Done(2));
        return;
      }
      var ino := UnusedInode();
      ghost var before := trace[|trace| - 1];
      vol := vol.(inodes := vol.inodes[ino := Inode(true, 0x180, env.euid, [], false, 0)]).Do(Put(Temp, File(ino)));
      assert Creates(env, before, State(vol, Write));
      Record(Write);
      WriteTemporary(ino, sizes);
      ok := InstallExactJournalTemp(false);
    }

    /** Everything before a tree may move. */
    method Prepare(sizes: nat -> nat) returns (ok: bool)
      requires At(Idle)
      modifies this
      ensures old(trace) <= trace
      ensures At(if ok then SyncObj else Done(2))
    {
      var valid;
      ok, valid := OpenJournal();
      if !ok { return; }
      if !TreeAllowed(vol.live, valid, Host) || !TreeAllowed(vol.live, valid, Target) {
        ok := false;
        Record(Done(2));
        return;
      }
      Record(Mkdir(valid));
      if !vol.live.quarantine.Present() {
        vol := vol.Do(Put(Quarantine, Directory(0)));
      }
      Record(if valid then SyncObj else Create);
      if !valid {
        ok := CreateJournal(sizes);
      }
    }

    method Run(sizes: nat -> nat) returns (code: nat)
      requires At(Idle)
      modifies this
      ensures old(trace) <= trace
      ensures At(Done(code))
    {
      code := 2;
      var ok := Prepare(sizes);
      if !ok { return; }
      vol := vol.SyncFolder(ObjFolder);
      Record(Move(Host));
      ok := MoveTree(Host);
      if !ok { return; }
      ok := MoveTree(Target);
      if ok {
        code := 0;
      }
    }
  }
}
