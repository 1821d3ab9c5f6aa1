/**
 Kill safety: over any sequence of runs, each killed after any call, no tree is lost,
 duplicated or moved without its journal. Nothing is assumed of the starting volume
 beyond being at rest.
 */
module MigrationSafety {
  import opened MigrationFs
  import opened MigrationProtocol

  /** What holds between any two calls of any run. */
  ghost predicate Inv(env: Env, first: Names, s: State) {
    var v := s.vol;
    && v.KnownInodes()
    && Safe(env, first, v)
    && match s.pc
       case Idle | Done(_) => true
       case Validate(_) => v.live.journal == Absent && v.live.temp.Present()
       case Link(_) => v.live.journal == Absent && Exact(env, v, Temp, 1)
       case Unlink(_) => v.live.temp == v.live.journal && Exact(env, v, Journal, 2)
       case SyncQuarantine(_) | Revalidate(_) | SyncObj | Move(_) | SyncSource(_) | SyncDest(_) =>
         JournalInstalled(env, v)
       case Check(_) | Mkdir(_) =>
         if s.pc.valid then JournalInstalled(env, v) else v.live.journal == Absent && v.live.temp == Absent
       case Create => v.live.journal == Absent && v.live.temp == Absent
       case Write | SyncTemp => v.live.journal == Absent && v.live.temp.File?
  }

  /** A change to neither tree, made while no journal is installed or leaving it installed, is safe. */
  lemma {:induction false} SafeKept(env: Env, first: Names, v: Volume, w: Volume)
    requires Safe(env, first, v)
    requires forall tree: Tree :: Unmoved(v.live, w.live, tree)
    requires JournalInstalled(env, v) ==> JournalInstalled(env, w)
    ensures Safe(env, first, w)
  {
    forall tree: Tree ensures Unmoved(first, w.live, tree) || (Moved(first, w.live, tree) && JournalInstalled(env, w)) {
      assert Unmoved(v.live, w.live, tree);
      assert Unmoved(first, v.live, tree) || Moved(first, v.live, tree);
    }
  }

  /** From the start of a run to the installed journal. */
  lemma {:induction false} JournalStepSafe(env: Env, first: Names, s: State, t: State)
    requires Inv(env, first, s) && Step(env, s, t)
    requires s.pc.Idle? || s.pc.Validate? || s.pc.Link? || s.pc.Unlink? || s.pc.SyncQuarantine? || s.pc.Revalidate?
    ensures Inv(env, first, t)
  {
    hide Flush, Others, Creates, Writes, TreeAllowed, Safe;
    SafeKept(env, first, s.vol, t.vol);
  }

  /** Checking, writing the temporary, and syncing. */
  lemma {:induction false} CalmStepSafe(env: Env, first: Names, s: State, t: State)
    requires Inv(env, first, s) && Step(env, s, t)
    requires s.pc.Check? || s.pc.Mkdir? || s.pc.Create? || s.pc.Write? || s.pc.SyncTemp? || s.pc.SyncObj? || s.pc.SyncSource? || s.pc.SyncDest?
    ensures Inv(env, first, t)
  {
    hide Flush, Others, Opening, TreeAllowed, Safe;
    SafeKept(env, first, s.vol, t.vol);
  }

  lemma {:induction false} MoveStepSafe(env: Env, first: Names, s: State, t: State)
    requires Inv(env, first, s) && Step(env, s, t) && s.pc.Move?
    ensures Inv(env, first, t)
  {
    hide Flush, Others, Opening, TreeAllowed, Creates, Writes;
    forall tree: Tree
      ensures Unmoved(first, t.vol.live, tree) || (Moved(first, t.vol.live, tree) && JournalInstalled(env, t.vol))
    {
      assert Unmoved(first, s.vol.live, tree) || Moved(first, s.vol.live, tree);
    }
  }

  lemma {:induction false} StepKeepsInv(env: Env, first: Names, s: State, t: State)
    requires Inv(env, first, s) && Step(env, s, t)
    ensures Inv(env, first, t)
  {
    hide Inv, Determined, Creates, Writes;
    match s.pc
    case Move(_) => MoveStepSafe(env, first, s, t);
    case Check(_) | Mkdir(_) | Create | Write | SyncTemp | SyncObj | SyncSource(_) | SyncDest(_) => CalmStepSafe(env, first, s, t);
    case _ => JournalStepSafe(env, first, s, t);
  }

  lemma {:induction false} KillKeepsInv(env: Env, first: Names, s: State, t: State)
    requires Inv(env, first, s) && Kill(s, t)
    ensures Inv(env, first, t)
  {
    hide Safe;
  }

  /** States of a series of runs in which every run may be killed anywhere. */
  ghost predicate KilledRuns(env: Env, trace: seq<State>) {
    && 0 < |trace|
    && trace[0].pc == Idle
    && forall k :: 0 <= k < |trace| - 1 ==> Step(env, trace[k], trace[k + 1]) || Kill(trace[k], trace[k + 1])
  }

  lemma {:induction false} KilledRunsInv(env: Env, trace: seq<State>)
    requires KilledRuns(env, trace) && AtRest(trace[0].vol)
    ensures Inv(env, trace[0].vol.live, trace[|trace| - 1])
  {
    if |trace| > 1 {
      hide Inv, Step, Kill, AtRest;
      var n := |trace| - 1;
      KilledRunsInv(env, trace[..n]);
      assert trace[..n][n - 1] == trace[n - 1];
      if Step(env, trace[n - 1], trace[n - 1 + 1]) {
        StepKeepsInv(env, trace[0].vol.live, trace[n - 1], trace[n]);
      } else {
        KillKeepsInv(env, trace[0].vol.live, trace[n - 1], trace[n]);
      }
    }
  }

  /** Whatever was on the volume, at every point of every series of killed runs each tree is
      either as it was found or moved whole behind an exact journal. */
  lemma {:induction false} KillSafety(env: Env, trace: seq<State>)
    requires KilledRuns(env, trace) && AtRest(trace[0].vol)
    ensures Safe(env, trace[0].vol.live, trace[|trace| - 1].vol)
  {
    KilledRunsInv(env, trace);
  }
}
