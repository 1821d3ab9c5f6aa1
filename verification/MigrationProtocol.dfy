/**
 quarantine_moved_cargo of scripts/firefox_objdir.py as a state machine. Each step
 is one file-system call with the checks that lead to it, so a kill between any two
 calls is a jump back to `Idle`.
 */
module MigrationProtocol {
  import opened Bytes
  import opened MigrationFs

  /** The two Cargo trees. */
  datatype Tree = Host | Target

  function Source(tree: Tree): Name {
    if tree == Host then HostSource else TargetSource
  }

  function Dest(tree: Tree): Name {
    if tree == Host then HostDest else TargetDest
  }

  /** The journal text is JSON and a newline, so it is never empty. */
  type Payload = p: seq<byte> | 0 < |p| witness [10]

  datatype Env = Env(payload: Payload, euid: nat)

  /** Where a run is. `early` marks a journal finished before the tree checks (a
      temporary left by an earlier run); `valid` is the variable journal_valid. */
  datatype Pc =
    | Idle
    | Validate(early: bool)
    | Link(early: bool)
    | Unlink(early: bool)
    | SyncQuarantine(early: bool)
    | Revalidate(early: bool)
    | Check(valid: bool)
    | Mkdir(valid: bool)
    | Create
    | Write
    | SyncTemp
    | SyncObj
    | Move(tree: Tree)
    | SyncSource(tree: Tree)
    | SyncDest(tree: Tree)
    | Done(code: nat)

  datatype State = State(vol: Volume, pc: Pc)

  /** validate_exact_journal_file accepts `name` with this link count. */
  predicate Exact(env: Env, v: Volume, name: Name, links: nat) {
    var entry := v.live.At(name);
    && entry.File?
    && entry.ino in v.inodes
    && var inode := v.inodes[entry.ino];
    && inode.regular
    && inode.mode == 0x180 // 0o600
    && inode.owner == env.euid
    && v.Links(entry.ino) == links
    && inode.content == env.payload
  }

  /** The tests made of one source and destination before anything is changed. */
  predicate TreeAllowed(live: Names, valid: bool, tree: Tree) {
    var source, dest := live.At(Source(tree)), live.At(Dest(tree));
    && !(tree == Target && live.targetParent.Symlink?)
    && !source.Symlink?
    && (source.Exists() ==> source.IsFolder())
    && !(source.Exists() && dest.Exists())
    && !dest.Symlink?
    && (dest.Exists() ==> dest.IsFolder())
    && (dest.Exists() ==> valid)
  }

  predicate QuarantineUnsafe(live: Names) {
    live.quarantine.Symlink? || (live.quarantine.Exists() && !live.quarantine.IsFolder())
  }

  /** Choosing a journal branch, up to its first change. */
  function Opening(env: Env, v: Volume): State {
    var journal, temp := v.live.journal, v.live.temp;
    if QuarantineUnsafe(v.live) then
      State(v, Done(2))
    else if journal.Present() && temp.Present() then
      if Exact(env, v, Temp, 2) && Exact(env, v, Journal, 2) && temp == journal then
        State(v.SyncFile(journal), Unlink(true))
      else
        State(v, Done(2))
    else if journal.Present() then
      if Exact(env, v, Journal, 1) then State(v.SyncFile(journal), Check(true)) else State(v, Done(2))
    else if temp.Present() then
      State(v, Validate(true))
    else
      State(v, Check(false))
  }

  /** Every step but creating and writing the temporary is determined. */
  function Determined(env: Env, s: State): State
    requires !s.pc.Create? && !s.pc.Write? && !s.pc.Done?
  {
    var v := s.vol;
    match s.pc
    case Idle => Opening(env, v)
    case Validate(early) =>
      if Exact(env, v, Temp, 1) then State(v.SyncFile(v.live.temp), Link(early)) else State(v, Done(2))
    case Link(early) =>
      if v.live.journal.Present() then State(v, Done(2))
      else State(v.Do(Put(Journal, v.live.temp)), Unlink(early))
    case Unlink(early) =>
      State(v.Do(Put(Temp, Absent)), SyncQuarantine(early))
    case SyncQuarantine(early) =>
      State(v.SyncFolder(QuarantineFolder), Revalidate(early))
    case Revalidate(early) =>
      if Exact(env, v, Journal, 1)
      then State(v.SyncFile(v.live.journal), if early then Check(true) else SyncObj)
      else State(v, Done(2))
    case Check(valid) =>
      State(v, if TreeAllowed(v.live, valid, Host) && TreeAllowed(v.live, valid, Target) then Mkdir(valid) else Done(2))
    case Mkdir(valid) =>
      State(if v.live.quarantine.Present() then v else v.Do(Put(Quarantine, Directory(0))),
            if valid then SyncObj else Create)
    case SyncTemp =>
      State(v.SyncFile(v.live.temp), Validate(false))
    case SyncObj =>
      State(v.SyncFolder(ObjFolder), Move(Host))
    case Move(tree) =>
      var source, dest := v.live.At(Source(tree)), v.live.At(Dest(tree));
      if !source.Directory? then State(v, SyncSource(tree))
      else if dest.Present() then State(v, Done(2))
      else State(v.Do(Rename(Source(tree), Dest(tree), source.id)), SyncSource(tree))
    case SyncSource(tree) =>
      State(if tree == Host || v.live.targetParent.IsFolder() then v.SyncFolder(Holder(Source(tree))) else v,
            SyncDest(tree))
    case SyncDest(tree) =>
      State(v.SyncFolder(QuarantineFolder), if tree == Host then Move(Target) else Done(0))
  }

  /** O_CREAT | O_EXCL with mode 0600 takes an inode number not in use. */
  ghost predicate Creates(env: Env, s: State, t: State) {
    if s.vol.live.temp.Present() then
      t == State(s.vol, Done(2))
    else
      exists ino ::
        && ino !in s.vol.inodes
        && t == State(s.vol.(inodes := s.vol.inodes[ino := Inode(true, 0x180, env.euid, [], false, 0)])
                           .Do(Put(Temp, File(ino))), Write)
  }

  /** A write may store any nonempty part of what remains. */
  ghost predicate Writes(env: Env, s: State, t: State) {
    var temp := s.vol.live.temp;
    && temp.File?
    && temp.ino in s.vol.inodes
    && var inode := s.vol.inodes[temp.ino];
    && exists n ::
         && |inode.content| < n <= |env.payload|
         && t == State(
                   s.vol.(inodes := s.vol.inodes[temp.ino := inode.(content := env.payload[..n], synced := false)]),
                   if n == |env.payload| then SyncTemp else Write)
  }

  /** One file-system call of a running migration. */
  ghost predicate Step(env: Env, s: State, t: State) {
    match s.pc
    case Done(_) => false
    case Create => Creates(env, s, t)
    case Write => Writes(env, s, t)
    case _ => t == Determined(env, s)
  }

  /** The process dies, or a call fails, and the command is started again. */
  ghost predicate Kill(s: State, t: State) {
    t == s.(pc := Idle)
  }

  ghost predicate PowerLoss(s: State, t: State) {
    LosesPowerTo(s.vol, t.vol) && t.pc == Idle
  }

  // What the migration promises about the trees.

  ghost predicate Unmoved(first: Names, now: Names, tree: Tree) {
    now.At(Source(tree)) == first.At(Source(tree)) && now.At(Dest(tree)) == first.At(Dest(tree))
  }

  /** The tree left its source whole and is the only thing at its destination. */
  ghost predicate Moved(first: Names, now: Names, tree: Tree) {
    && first.At(Source(tree)).Directory?
    && first.At(Dest(tree)) == Absent
    && now.At(Source(tree)) == Absent
    && now.At(Dest(tree)) == first.At(Source(tree))
  }

  ghost predicate JournalInstalled(env: Env, v: Volume) {
    Exact(env, v, Journal, 1) && v.live.temp == Absent
  }

  /** Each tree is at exactly one place, and at its destination only behind an exact journal. */
  ghost predicate Safe(env: Env, first: Names, v: Volume) {
    forall tree: Tree ::
      || Unmoved(first, v.live, tree)
      || (Moved(first, v.live, tree) && JournalInstalled(env, v))
  }

  /** A volume at rest: nothing unsynced, nothing listed in a missing directory. */
  ghost predicate AtRest(v: Volume) {
    && v.disk == v.live == v.live.Reachable()
    && v.pending == []
    && v.KnownInodes()
    && (forall i <- v.inodes :: v.inodes[i].synced)
    && (v.live.targetParent == Absent ==> v.live.targetSource == Absent)
  }
}
