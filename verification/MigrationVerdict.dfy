/**
 Which volumes the migration accepts. From any volume whatsoever, a finished run ended with 0 if and
 only if the entries it found were acceptable; otherwise it ended with 2 and no tree has moved.
 */
module MigrationVerdict {
  import opened MigrationFs
  import opened MigrationProtocol
  import opened MigrationSafety
  import opened MigrationConvergence

  /** A regular file of mode 0600, the caller's, holding the payload, under no further name. */
  ghost predicate IsRecord(env: Env, v: Volume, e: Entry) {
    && e.File? && e.ino in v.inodes
    && var inode := v.inodes[e.ino];
    && inode == Inode(true, 0x180, env.euid, env.payload, inode.synced, 0)
  }

  ghost predicate NothingFound(live: Names) {
    live.journal == Absent && live.temp == Absent
  }

  /** The record stands under the journal's name, the temporary's, or both. */
  ghost predicate RecordFound(env: Env, v: Volume) {
    && (v.live.journal != Absent || v.live.temp != Absent)
    && (v.live.journal != Absent ==> IsRecord(env, v, v.live.journal))
    && (v.live.temp != Absent ==> IsRecord(env, v, v.live.temp))
    && (v.live.journal != Absent && v.live.temp != Absent ==> v.live.journal == v.live.temp)
  }

  /** Real directories or nothing, not both, and at the destination only behind a record. */
  ghost predicate TreeFine(source: Entry, dest: Entry, recorded: bool) {
    || (source == Absent && dest == Absent)
    || (source.Directory? && dest == Absent)
    || (source == Absent && dest.Directory? && recorded)
  }

  ghost predicate TreesFine(live: Names, recorded: bool) {
    && !live.targetParent.Symlink?
    && TreeFine(live.hostSource, live.hostDest, recorded)
    && TreeFine(live.targetSource, live.targetDest, recorded)
  }

  ghost predicate Acceptable(env: Env, v: Volume) {
    && (v.live.quarantine == Absent || v.live.quarantine.Directory?)
    && (NothingFound(v.live) || RecordFound(env, v))
    && TreesFine(v.live, RecordFound(env, v))
  }

  // What the rest of a run needs.

  ghost predicate Clear(live: Names, tree: Tree) {
    live.At(Source(tree)).Directory? ==> live.At(Dest(tree)) == Absent
  }

  ghost predicate AllClear(live: Names) {
    Clear(live, Host) && Clear(live, Target)
  }

  ghost predicate Rest(live: Names, early: bool) {
    if early then TreesFine(live, true) else AllClear(live)
  }

  ghost predicate OwnTemp(env: Env, v: Volume) {
    && v.live.temp.File? && v.live.temp.ino in v.inodes
    && var inode := v.inodes[v.live.temp.ino];
    && inode == Inode(true, 0x180, env.euid, inode.content, inode.synced, 0)
  }

  /** The run will end with 0. */
  ghost predicate Verdict(env: Env, s: State) {
    var v := s.vol;
    match s.pc
    case Idle => Acceptable(env, v)
    case Validate(early) => v.live.journal == Absent && IsRecord(env, v, v.live.temp) && Rest(v.live, early)
    case Link(early) => v.live.journal == Absent && IsRecord(env, v, v.live.temp) && Rest(v.live, early)
    case Unlink(early) => IsRecord(env, v, v.live.journal) && Rest(v.live, early)
    case SyncQuarantine(early) => IsRecord(env, v, v.live.journal) && v.live.temp != v.live.journal && Rest(v.live, early)
    case Revalidate(early) => IsRecord(env, v, v.live.journal) && v.live.temp != v.live.journal && Rest(v.live, early)
    case Check(valid) => TreesFine(v.live, valid) && (valid || NothingFound(v.live))
    case Mkdir(valid) => AllClear(v.live) && (valid || NothingFound(v.live))
    case Create => AllClear(v.live) && NothingFound(v.live)
    case Write => AllClear(v.live) && v.live.journal == Absent && OwnTemp(env, v)
    case SyncTemp => AllClear(v.live) && v.live.journal == Absent && IsRecord(env, v, v.live.temp)
    case SyncObj => AllClear(v.live)
    case Move(tree) => if tree == Host then AllClear(v.live) else Clear(v.live, Target)
    case SyncSource(tree) => tree == Host ==> Clear(v.live, Target)
    case SyncDest(tree) => tree == Host ==> Clear(v.live, Target)
    case Done(code) => code == 0
  }

  // Every call keeps the verdict.

  lemma {:induction false} ExactIs(env: Env, v: Volume, name: Name, links: nat)
    requires name == Journal || name == Temp
    ensures var e, other := v.live.At(name), if name == Journal then v.live.temp else v.live.journal;
            && (links == 1 && other != e ==> (Exact(env, v, name, 1) <==> IsRecord(env, v, e)))
            && (links == 1 && other == e ==> !Exact(env, v, name, 1))
            && (links == 2 && other == e ==> (Exact(env, v, name, 2) <==> IsRecord(env, v, e)))
  {
  }

  lemma {:induction false} AllowedIs(live: Names, valid: bool)
    ensures TreeAllowed(live, valid, Host) && TreeAllowed(live, valid, Target) <==> TreesFine(live, valid)
  {
  }

  lemma {:induction false} OpeningVerdict(env: Env, s: State)
    requires s.pc == Idle
    ensures Verdict(env, s) <==> Verdict(env, Opening(env, s.vol))
  {
    hide Exact;
    ExactIs(env, s.vol, Journal, 1);
    ExactIs(env, s.vol, Journal, 2);
    ExactIs(env, s.vol, Temp, 2);
  }

  lemma {:induction false} JournalVerdict(env: Env, s: State, t: State)
    requires Step(env, s, t)
    requires s.pc.Validate? || s.pc.Link? || s.pc.Unlink? || s.pc.SyncQuarantine? || s.pc.Revalidate?
    ensures Verdict(env, s) <==> Verdict(env, t)
  {
    hide Exact, Opening, TreeAllowed, Flush, Others, Creates, Writes;
    ExactIs(env, s.vol, Journal, 1);
    ExactIs(env, s.vol, Temp, 1);
    assert t.vol.live.At(Journal) == t.vol.live.journal && t.vol.live.At(Temp) == t.vol.live.temp;
  }

  lemma {:induction false} CheckVerdict(env: Env, s: State, t: State)
    requires Step(env, s, t) && (s.pc.Check? || s.pc.Mkdir?)
    ensures Verdict(env, s) <==> Verdict(env, t)
  {
    hide Exact, Opening, TreeAllowed, Flush, Others, Creates, Writes;
    AllowedIs(s.vol.live, s.pc.valid);
    assert forall name :: name != Quarantine ==> t.vol.live.At(name) == s.vol.live.At(name);
    assert t.vol.live.At(Journal) == t.vol.live.journal && t.vol.live.At(Temp) == t.vol.live.temp;
  }

  lemma {:induction false} WriteVerdict(env: Env, s: State, t: State)
    requires Step(env, s, t) && (s.pc.Create? || s.pc.Write? || s.pc.SyncTemp?)
    ensures Verdict(env, s) <==> Verdict(env, t)
  {
    hide Exact, Opening, TreeAllowed, Flush, Others;
    assert forall name :: name != Temp ==> t.vol.live.At(name) == s.vol.live.At(name);
    assert t.vol.live.At(Journal) == t.vol.live.journal && t.vol.live.At(Temp) == t.vol.live.temp;
    assert env.payload[..|env.payload|] == env.payload;
  }

  lemma {:induction false} MoveVerdict(env: Env, s: State, t: State)
    requires Step(env, s, t)
    requires s.pc.SyncObj? || s.pc.Move? || s.pc.SyncSource? || s.pc.SyncDest?
    ensures Verdict(env, s) <==> Verdict(env, t)
  {
    hide Exact, Opening, TreeAllowed, Flush, Others, Creates, Writes;
  }

  /** Whether a run will end with 0 is settled when it starts. */
  lemma {:induction false} StepKeepsVerdict(env: Env, s: State, t: State)
    requires Step(env, s, t)
    ensures Verdict(env, s) <==> Verdict(env, t)
  {
    hide Verdict, Opening, Creates, Writes, Exact, TreeAllowed, Flush, Others;
    match s.pc
    case Idle => OpeningVerdict(env, s);
    case Check(_) | Mkdir(_) => CheckVerdict(env, s, t);
    case Create | Write | SyncTemp => WriteVerdict(env, s, t);
    case SyncObj | Move(_) | SyncSource(_) | SyncDest(_) => MoveVerdict(env, s, t);
    case _ => JournalVerdict(env, s, t);
  }

  // A run that will be refused.

  ghost predicate Early(pc: Pc) {
    (pc.Validate? || pc.Link? || pc.Unlink? || pc.SyncQuarantine? || pc.Revalidate?) && pc.early
  }

  /** It is refused before any tree moves, and without a record before anything changes. */
  ghost predicate Doomed(first: Volume, s: State) {
    && Unmoved(first.live, s.vol.live, Host) && Unmoved(first.live, s.vol.live, Target)
    && (NothingFound(first.live) ==> s.vol == first)
    && match s.pc
       case Idle => s.vol == first
       case Check(valid) => if valid then !NothingFound(first.live) else NothingFound(s.vol.live)
       case Done(code) => code == 2
       case pc => Early(pc) && !NothingFound(first.live)
  }

  lemma {:induction false} DoomedStep(env: Env, first: Volume, s: State, t: State)
    requires Doomed(first, s) && !Verdict(env, s) && Step(env, s, t)
    ensures Doomed(first, t)
  {
    hide Exact, Flush, Others, TreeAllowed, IsRecord, Creates, Writes;
    if s.pc.Check? {
      AllowedIs(s.vol.live, s.pc.valid);
    }
    assert t.vol.live.At(Journal) == t.vol.live.journal && t.vol.live.At(Temp) == t.vol.live.temp;
  }

  lemma {:induction false} RefusedRun(env: Env, run: seq<State>)
    requires Uninterrupted(env, run) && !Verdict(env, run[0])
    ensures !Verdict(env, run[|run| - 1]) && Doomed(run[0].vol, run[|run| - 1])
  {
    if |run| > 1 {
      hide Verdict, Doomed, Step;
      var n := |run| - 1;
      RefusedRun(env, run[..n]);
      assert run[..n][n - 1] == run[n - 1];
      RunStep(env, run, n - 1);
      StepKeepsVerdict(env, run[n - 1], run[n]);
      DoomedStep(env, run[0].vol, run[n - 1], run[n]);
    }
  }

  // A run that will succeed.

  /** Each tree is where it was or moved, and those whose turn has come are moved. */
  ghost predicate Underway(first: Names, s: State) {
    var live := s.vol.live;
    && (Unmoved(first, live, Host) || Moved(first, live, Host))
    && (Unmoved(first, live, Target) || Moved(first, live, Target))
    && match s.pc
       case Move(tree) => tree == Target ==> !live.hostSource.Directory?
       case SyncSource(tree) => !live.hostSource.Directory? && (tree == Target ==> !live.targetSource.Directory?)
       case SyncDest(tree) => !live.hostSource.Directory? && (tree == Target ==> !live.targetSource.Directory?)
       case Done(code) => code == 0 ==> !live.hostSource.Directory? && !live.targetSource.Directory?
       case _ => true
  }

  lemma {:induction false} UnderwayStep(env: Env, first: Names, s: State, t: State)
    requires Underway(first, s) && Step(env, s, t)
    ensures Underway(first, t)
  {
    hide Exact, Flush, Others, TreeAllowed;
  }

  lemma {:induction false} RunUnderway(env: Env, run: seq<State>)
    requires Uninterrupted(env, run)
    ensures Underway(run[0].vol.live, run[|run| - 1])
    ensures Verdict(env, run[0]) <==> Verdict(env, run[|run| - 1])
  {
    if |run| > 1 {
      hide Verdict, Underway, Step;
      var n := |run| - 1;
      RunUnderway(env, run[..n]);
      assert run[..n][n - 1] == run[n - 1];
      RunStep(env, run, n - 1);
      StepKeepsVerdict(env, run[n - 1], run[n]);
      UnderwayStep(env, run[0].vol.live, run[n - 1], run[n]);
    }
  }

  /** Every directory found at a source is at its destination; the rest is as found. */
  ghost predicate AllMoved(first: Names, now: Names) {
    forall tree: Tree ::
      if first.At(Source(tree)).Directory? then Moved(first, now, tree) else Unmoved(first, now, tree)
  }

  /** The code of a finished run, from any volume: 0 if and only if the quarantine directory is a
      directory or missing, journal and temporary are both missing or name one exact record, and each
      tree is a real directory at its source, or at its destination behind a record, or nowhere. With
      0 every tree has moved. Otherwise the code is 2 and no tree has; without a record nothing has
      changed at all. */
  lemma {:induction false} EndsExactly(env: Env, run: seq<State>)
    requires Uninterrupted(env, run) && run[|run| - 1].pc.Done?
    ensures var first, last := run[0].vol, run[|run| - 1];
            && (last.pc.code == 0 <==> Acceptable(env, first))
            && (last.pc.code == 0 ==> AllMoved(first.live, last.vol.live))
            && (last.pc.code != 0 ==>
                  && last.pc.code == 2
                  && Unmoved(first.live, last.vol.live, Host) && Unmoved(first.live, last.vol.live, Target)
                  && (NothingFound(first.live) ==> last.vol == first))
  {
    hide Step, IsRecord;
    RunUnderway(env, run);
    if !Verdict(env, run[0]) {
      RefusedRun(env, run);
    }
  }

  /** And with 0 only the journal is left of the bookkeeping. */
  lemma {:induction false} EndsInstalled(env: Env, run: seq<State>)
    requires Uninterrupted(env, run) && AtRest(run[0].vol) && run[|run| - 1].pc == Done(0)
    ensures JournalInstalled(env, run[|run| - 1].vol)
  {
    hide AtRest, TreeAllowed, Flush, Others, Safe;
    var n := |run| - 1;
    RunStep(env, run, n - 1);
    assert KilledRuns(env, run[..n]) by {
      forall k | 0 <= k < n - 1 ensures Step(env, run[..n][k], run[..n][k + 1]) {
        RunStep(env, run, k);
      }
    }
    KilledRunsInv(env, run[..n]);
    assert run[..n][n - 1] == run[n - 1];
  }

  /** So a quarantined tree without a record is refused, and nothing is touched. */
  lemma {:induction false} UnrecordedTreeRefused(env: Env, run: seq<State>)
    requires Uninterrupted(env, run) && run[|run| - 1].pc.Done?
    requires NothingFound(run[0].vol.live)
    requires run[0].vol.live.hostDest != Absent || run[0].vol.live.targetDest != Absent
    ensures run[|run| - 1] == State(run[0].vol, Done(2))
  {
    hide Step;
    EndsExactly(env, run);
  }
}
