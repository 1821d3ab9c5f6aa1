/**
 Convergence: started where nothing has been migrated yet, killed any number of times,
 one uninterrupted run finishes the move exactly when no earlier run died while
 writing the temporary.
 */
module MigrationConvergence {
  import opened MigrationFs
  import opened MigrationProtocol
  import opened MigrationSafety

  ghost predicate FolderOrAbsent(e: Entry) {
    e.Directory? || e.Absent?
  }

  /** An object directory to migrate: real directories or nothing, and no journal yet. */
  ghost predicate Migratable(v: Volume) {
    && AtRest(v)
    && FolderOrAbsent(v.live.quarantine)
    && FolderOrAbsent(v.live.targetParent)
    && FolderOrAbsent(v.live.hostSource)
    && FolderOrAbsent(v.live.targetSource)
    && v.live.hostDest == v.live.targetDest == v.live.journal == v.live.temp == Absent
  }

  /** The temporary of an unfinished journal: ours, unlinked elsewhere, written up to some byte. */
  ghost predicate Unfinished(env: Env, v: Volume) {
    && v.live.journal == Absent
    && v.live.temp.File?
    && v.live.temp.ino in v.inodes
    && var inode := v.inodes[v.live.temp.ino];
    && inode == Inode(true, 0x180, env.euid, inode.content, inode.synced, 0)
    && inode.content <= env.payload
  }

  /** A run died before the temporary was complete. */
  ghost predicate PartialTemp(env: Env, v: Volume) {
    && Unfinished(env, v)
    && v.inodes[v.live.temp.ino].content != env.payload
  }

  /** The four shapes the journal and its temporary pass through. */
  ghost predicate JournalShape(env: Env, v: Volume) {
    || v.live.journal == v.live.temp == Absent
    || Unfinished(env, v)
    || (v.live.temp == v.live.journal && Exact(env, v, Journal, 2))
    || JournalInstalled(env, v)
  }

  ghost predicate Reached(env: Env, first: Names, s: State) {
    && Inv(env, first, s)
    && JournalShape(env, s.vol)
    && FolderOrAbsent(s.vol.live.quarantine)
    && s.vol.live.targetParent == first.targetParent
    && (s.pc.Write? ==> PartialTemp(env, s.vol))
    && (s.pc.SyncTemp? ==> Unfinished(env, s.vol) && !PartialTemp(env, s.vol))
  }

  lemma {:induction false} JournalStepReached(env: Env, first: Names, s: State, t: State)
    requires Reached(env, first, s) && Step(env, s, t) && Inv(env, first, t)
    requires s.pc.Idle? || s.pc.Validate? || s.pc.Link? || s.pc.Unlink? || s.pc.SyncQuarantine? || s.pc.Revalidate?
    ensures Reached(env, first, t)
  {
    hide Safe, Flush, Others, TreeAllowed, Creates, Writes;
  }

  lemma {:induction false} OtherStepReached(env: Env, first: Names, s: State, t: State)
    requires Reached(env, first, s) && Step(env, s, t) && Inv(env, first, t)
    requires !(s.pc.Idle? || s.pc.Validate? || s.pc.Link? || s.pc.Unlink? || s.pc.SyncQuarantine? || s.pc.Revalidate?)
    ensures Reached(env, first, t)
  {
    hide Safe, Flush, Others, TreeAllowed, Opening;
  }

  lemma {:induction false} StepKeepsReached(env: Env, first: Names, s: State, t: State)
    requires Reached(env, first, s) && Step(env, s, t)
    ensures Reached(env, first, t)
  {
    hide Step, Inv, JournalShape;
    StepKeepsInv(env, first, s, t);
    if s.pc.Idle? || s.pc.Validate? || s.pc.Link? || s.pc.Unlink? || s.pc.SyncQuarantine? || s.pc.Revalidate? {
      JournalStepReached(env, first, s, t);
    } else {
      OtherStepReached(env, first, s, t);
    }
  }

  lemma {:induction false} KillKeepsReached(env: Env, first: Names, s: State, t: State)
    requires Reached(env, first, s) && Kill(s, t)
    ensures Reached(env, first, t)
  {
    hide Inv, JournalShape;
    KillKeepsInv(env, first, s, t);
  }

  lemma {:induction false} KilledRunsReached(env: Env, trace: seq<State>)
    requires KilledRuns(env, trace) && Migratable(trace[0].vol)
    ensures Reached(env, trace[0].vol.live, trace[|trace| - 1])
  {
    if |trace| > 1 {
      hide Reached, Step, Kill, Migratable;
      var n := |trace| - 1;
      KilledRunsReached(env, trace[..n]);
      assert trace[..n][n - 1] == trace[n - 1];
      if Step(env, trace[n - 1], trace[n - 1 + 1]) {
        StepKeepsReached(env, trace[0].vol.live, trace[n - 1], trace[n]);
      } else {
        KillKeepsReached(env, trace[0].vol.live, trace[n - 1], trace[n]);
      }
    }
  }

  /** A run that is not killed. */
  ghost predicate Uninterrupted(env: Env, run: seq<State>) {
    && 0 < |run|
    && run[0].pc == Idle
    && forall k :: 0 <= k < |run| - 1 ==> Step(env, run[k], run[k + 1])
  }

  lemma {:induction false} RunStep(env: Env, run: seq<State>, k: nat)
    requires Uninterrupted(env, run) && k < |run| - 1
    ensures Step(env, run[k], run[k + 1])
  {
  }

  /** How far a run has come when it did not start on a partial temporary. */
  ghost predicate OnTrack(env: Env, first: Names, s: State) {
    var live := s.vol.live;
    && Reached(env, first, s)
    && (PartialTemp(env, s.vol) ==> s.pc.Write?)
    && match s.pc
       case SyncSource(tree) => live.hostSource == Absent && (tree == Target ==> live.targetSource == Absent)
       case SyncDest(tree) => live.hostSource == Absent && (tree == Target ==> live.targetSource == Absent)
       case Move(tree) => tree == Target ==> live.hostSource == Absent
       case Done(code) =>
         code == 0 && live.hostSource == live.targetSource == Absent && JournalInstalled(env, s.vol)
       case _ => true
  }

  lemma {:induction false} JournalStepOnTrack(env: Env, first: Volume, s: State, t: State)
    requires OnTrack(env, first.live, s) && Step(env, s, t) && Reached(env, first.live, t)
    requires s.pc.Idle? || s.pc.Validate? || s.pc.Link? || s.pc.Unlink? || s.pc.SyncQuarantine? || s.pc.Revalidate?
    ensures OnTrack(env, first.live, t)
  {
    hide Safe, Flush, Others, TreeAllowed, Creates, Writes;
  }

  lemma {:induction false} WriteStepOnTrack(env: Env, first: Volume, s: State, t: State)
    requires Migratable(first) && OnTrack(env, first.live, s) && Step(env, s, t) && Reached(env, first.live, t)
    requires s.pc.Check? || s.pc.Mkdir? || s.pc.Create? || s.pc.Write? || s.pc.SyncTemp?
    ensures OnTrack(env, first.live, t)
  {
    hide Flush, Others, Opening;
    assert Unmoved(first.live, s.vol.live, Host) || Moved(first.live, s.vol.live, Host);
    assert Unmoved(first.live, s.vol.live, Target) || Moved(first.live, s.vol.live, Target);
  }

  lemma {:induction false} MoveStepOnTrack(env: Env, first: Volume, s: State, t: State)
    requires Migratable(first) && OnTrack(env, first.live, s) && Step(env, s, t) && Reached(env, first.live, t) && s.pc.Move?
    ensures OnTrack(env, first.live, t)
  {
    hide Opening, TreeAllowed, Creates, Writes, Exact;
    assert Unmoved(first.live, s.vol.live, Host) || Moved(first.live, s.vol.live, Host);
    assert Unmoved(first.live, s.vol.live, Target) || Moved(first.live, s.vol.live, Target);
  }

  lemma {:induction false} SyncStepOnTrack(env: Env, first: Volume, s: State, t: State)
    requires OnTrack(env, first.live, s) && Step(env, s, t) && Reached(env, first.live, t)
    requires s.pc.SyncObj? || s.pc.SyncSource? || s.pc.SyncDest?
    ensures OnTrack(env, first.live, t)
  {
    hide Flush, Others, Opening, TreeAllowed, Creates, Writes, Safe;
  }

  lemma {:induction false} StepKeepsOnTrack(env: Env, first: Volume, s: State, t: State)
    requires Migratable(first) && OnTrack(env, first.live, s) && Step(env, s, t)
    ensures OnTrack(env, first.live, t)
  {
    hide Determined, Creates, Writes, Reached, Migratable;
    StepKeepsReached(env, first.live, s, t);
    match s.pc
    case Check(_) | Mkdir(_) | Create | Write | SyncTemp => WriteStepOnTrack(env, first, s, t);
    case Move(_) => MoveStepOnTrack(env, first, s, t);
    case SyncObj | SyncSource(_) | SyncDest(_) => SyncStepOnTrack(env, first, s, t);
    case _ => JournalStepOnTrack(env, first, s, t);
  }

  /** A stretch of a run from anywhere on track. */
  lemma {:induction false} StretchStaysOnTrack(env: Env, first: Volume, run: seq<State>)
    requires Migratable(first) && 0 < |run| && OnTrack(env, first.live, run[0])
    requires forall k :: 0 <= k < |run| - 1 ==> Step(env, run[k], run[k + 1])
    ensures OnTrack(env, first.live, run[|run| - 1])
  {
    if |run| > 1 {
      hide OnTrack, Step, Migratable;
      var n := |run| - 1;
      StretchStaysOnTrack(env, first, run[..n]);
      assert run[..n][n - 1] == run[n - 1] && Step(env, run[n - 1], run[n - 1 + 1]);
      StepKeepsOnTrack(env, first, run[n - 1], run[n]);
    }
  }

  lemma {:induction false} RunStaysOnTrack(env: Env, first: Volume, run: seq<State>)
    requires Migratable(first) && Uninterrupted(env, run)
    requires Reached(env, first.live, run[0]) && !PartialTemp(env, run[0].vol)
    ensures OnTrack(env, first.live, run[|run| - 1])
  {
    StretchStaysOnTrack(env, first, run);
  }

  /** Both trees are away, each whole at its destination, behind the journal alone. */
  ghost predicate Migrated(env: Env, first: Names, v: Volume) {
    && JournalInstalled(env, v)
    && forall tree: Tree ::
         if first.At(Source(tree)).Directory? then Moved(first, v.live, tree) else Unmoved(first, v.live, tree)
  }

  /** A partial temporary stops every run at its validation, before any change. */
  lemma {:induction false} PartialTempRefuses(env: Env, run: seq<State>)
    requires Uninterrupted(env, run) && PartialTemp(env, run[0].vol)
    requires FolderOrAbsent(run[0].vol.live.quarantine)
    ensures forall k :: 0 <= k < |run| ==> run[k].vol == run[0].vol
    ensures run[|run| - 1].pc.Done? ==> run[|run| - 1].pc.code == 2
  {
    if |run| > 1 {
      RunStep(env, run, 0);
      assert run[1] == State(run[0].vol, Validate(true));
      if |run| > 2 {
        RunStep(env, run, 1);
        assert run[2] == State(run[0].vol, Done(2));
        if |run| > 3 {
          RunStep(env, run, 2);
          assert false;
        }
      }
    }
  }

  /** After any kills, a run that gets to its end succeeds if and only if it did not find a
      partial temporary. Success is the whole migration; refusal changes nothing. */
  lemma {:induction false} Convergence(env: Env, killed: seq<State>, run: seq<State>)
    requires KilledRuns(env, killed) && Migratable(killed[0].vol)
    requires Uninterrupted(env, run) && run[0] == killed[|killed| - 1]
    requires run[|run| - 1].pc.Done?
    ensures run[|run| - 1].pc.code == 0 <==> !PartialTemp(env, run[0].vol)
    ensures run[|run| - 1].pc.code == 0 ==> Migrated(env, killed[0].vol.live, run[|run| - 1].vol)
    ensures run[|run| - 1].pc.code != 0 ==> run[|run| - 1].vol == run[0].vol
  {
    var first, last := killed[0].vol, run[|run| - 1];
    KilledRunsReached(env, killed);
    if PartialTemp(env, run[0].vol) {
      PartialTempRefuses(env, run);
    } else {
      RunStaysOnTrack(env, first, run);
      assert Unmoved(first.live, last.vol.live, Host) || Moved(first.live, last.vol.live, Host);
      assert Unmoved(first.live, last.vol.live, Target) || Moved(first.live, last.vol.live, Target);
    }
  }

  lemma {:induction false} NoPartialTemp(env: Env, v: Volume)
    requires Migratable(v)
    ensures !PartialTemp(env, v)
  {
  }

  // Every run gets to its end.

  /** Calls left at most. */
  ghost function Rank(env: Env, s: State): nat {
    match s.pc
    case Idle => |env.payload| + 40
    case Done(_) => 0
    case SyncDest(tree) => if tree == Host then 4 else 1
    case SyncSource(tree) => if tree == Host then 5 else 2
    case Move(tree) => if tree == Host then 6 else 3
    case SyncObj => 7
    case Revalidate(early) => if early then |env.payload| + 30 else 8
    case SyncQuarantine(early) => if early then |env.payload| + 31 else 9
    case Unlink(early) => if early then |env.payload| + 32 else 10
    case Link(early) => if early then |env.payload| + 33 else 11
    case Validate(early) => if early then |env.payload| + 34 else 12
    case SyncTemp => 13
    case Write =>
      var temp := s.vol.live.temp;
      14 + if temp.File? && temp.ino in s.vol.inodes && |s.vol.inodes[temp.ino].content| <= |env.payload|
           then |env.payload| - |s.vol.inodes[temp.ino].content| else 0
    case Create => |env.payload| + 15
    case Mkdir(_) => |env.payload| + 16
    case Check(_) => |env.payload| + 17
  }

  lemma {:induction false} StepLowersRank(env: Env, s: State, t: State)
    requires Step(env, s, t)
    ensures Rank(env, t) < Rank(env, s)
  {
    if s.pc.Write? {
      assert t.vol.live == s.vol.live;
    }
  }

  lemma {:induction false} RunRank(env: Env, run: seq<State>)
    requires Uninterrupted(env, run)
    ensures Rank(env, run[|run| - 1]) + |run| - 1 <= |env.payload| + 40
  {
    if |run| > 1 {
      var n := |run| - 1;
      RunRank(env, run[..n]);
      assert run[..n][n - 1] == run[n - 1];
      RunStep(env, run, n - 1);
      StepLowersRank(env, run[n - 1], run[n]);
    }
  }

  lemma {:induction false} FirstCheck(env: Env, first: Volume) returns (run: seq<State>)
    requires Migratable(first)
    ensures |run| == 4 && run[0] == State(first, Idle) && run[3].pc == Create
    ensures forall k :: 0 <= k < 3 ==> Step(env, run[k], run[k + 1])
    ensures run[3].vol.live == first.live.(quarantine := run[3].vol.live.quarantine) && run[3].vol.inodes == first.inodes
  {
    var check := Determined(env, State(first, Idle));
    assert check == State(first, Check(false));
    var mkdir := Determined(env, check);
    assert mkdir == State(first, Mkdir(false));
    run := [State(first, Idle), check, mkdir, Determined(env, mkdir)];
  }

  /** The first run over any object directory, up to its empty temporary. */
  lemma {:induction false} FirstCreate(env: Env, first: Volume) returns (run: seq<State>, ino: nat)
    requires Migratable(first)
    ensures |run| == 5 && run[0] == State(first, Idle) && run[4].pc == Write
    ensures forall k :: 0 <= k < 4 ==> Step(env, run[k], run[k + 1])
    ensures var v := run[4].vol;
            && v.live.journal == Absent && v.live.temp == File(ino) && v.live.hostSource == first.live.hostSource
            && ino in v.inodes && v.inodes[ino] == Inode(true, 0x180, env.euid, [], false, 0)
  {
    run := FirstCheck(env, first);
    var create := run[3];
    hide Determined, Opening, Writes;
    ino := Unused(first.inodes.Keys);
    var v := create.vol.(inodes := first.inodes[ino := Inode(true, 0x180, env.euid, [], false, 0)]).Do(Put(Temp, File(ino)));
    assert Creates(env, create, State(v, Write));
    assert Step(env, run[0], run[0 + 1]) && Step(env, run[1], run[1 + 1]) && Step(env, run[2], run[2 + 1]);
    run := run + [State(v, Write)];
  }

  /** Killing the first run over any object directory after it has created the temporary, and
      before it writes, leaves a partial one. */
  lemma {:induction false} PartialTempIsReached(env: Env, first: Volume) returns (killed: seq<State>)
    requires Migratable(first)
    ensures KilledRuns(env, killed) && killed[0].vol == first
    ensures killed[|killed| - 1].pc == Idle && PartialTemp(env, killed[|killed| - 1].vol)
  {
    hide Step, Migratable;
    var run, ino := FirstCreate(env, first);
    killed := run + [State(run[4].vol, Idle)];
    forall k | 0 <= k < |killed| - 1 ensures Step(env, killed[k], killed[k + 1]) || Kill(killed[k], killed[k + 1]) {
      if k < 4 {
        assert killed[k] == run[k] && killed[k + 1] == run[k + 1];
      }
    }
  }

  /** No run is longer than the payload and forty calls, and until it is done it can go on. */
  lemma {:induction false} EveryRunEnds(env: Env, killed: seq<State>, run: seq<State>)
    requires KilledRuns(env, killed) && Migratable(killed[0].vol)
    requires Uninterrupted(env, run) && run[0] == killed[|killed| - 1]
    ensures |run| <= |env.payload| + 41
    ensures !run[|run| - 1].pc.Done? ==> CanStep(env, run[|run| - 1])
  {
    RunRank(env, run);
    var trace := killed + run[1..];
    forall k | 0 <= k < |trace| - 1
      ensures Step(env, trace[k], trace[k + 1]) || Kill(trace[k], trace[k + 1])
    {
      if k >= |killed| - 1 {
        var j := k - |killed| + 1;
        assert trace[k] == run[j] && trace[k + 1] == run[j + 1];
        RunStep(env, run, j);
      } else {
        assert trace[k] == killed[k] && trace[k + 1] == killed[k + 1];
      }
    }
    KilledRunsReached(env, trace);
    assert trace[|trace| - 1] == run[|run| - 1];
    ReachedCanStep(env, killed[0].vol.live, run[|run| - 1]);
  }

  ghost predicate CanStep(env: Env, s: State) {
    exists next :: Step(env, s, next)
  }

  lemma {:induction false} ReachedCanStep(env: Env, first: Names, s: State)
    requires Reached(env, first, s)
    ensures !s.pc.Done? ==> CanStep(env, s)
  {
    var v := s.vol;
    if s.pc.Create? && v.live.temp.Absent? {
      var ino := Unused(v.inodes.Keys);
      var next := State(v.(inodes := v.inodes[ino := Inode(true, 0x180, env.euid, [], false, 0)])
                        .Do(Put(Temp, File(ino))), Write);
      assert Creates(env, s, next);
      assert Step(env, s, next);
    } else if s.pc.Create? {
      assert Step(env, s, State(v, Done(2)));
    } else if s.pc.Write? {
      var ino := v.live.temp.ino;
      var n := |env.payload|;
      var next := State(v.(inodes := v.inodes[ino := v.inodes[ino].(content := env.payload[..n], synced := false)]), SyncTemp);
      assert v.inodes[ino].content < env.payload;
      assert Writes(env, s, next);
      assert Step(env, s, next);
    } else if !s.pc.Done? {
      assert Step(env, s, Determined(env, s));
    }
  }

  /** Some number is not in a finite set. */
  lemma {:induction false} Unused(used: set<nat>) returns (n: nat)
    ensures n !in used
    ensures forall m <- used :: m < n
    decreases |used|
  {
    if used == {} {
      n := 0;
    } else {
      var m :| m in used;
      var rest := Unused(used - {m});
      n := if m < rest then rest else m + 1;
      assert used == (used - {m}) + {m};
    }
  }
}
