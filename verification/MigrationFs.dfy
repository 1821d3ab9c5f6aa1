/**
 The part of a POSIX file system that scripts/firefox_objdir.py works on: the
 directory entries it names, the inodes behind them, and which directory
 changes and file contents have reached the disk.
 */
module MigrationFs {
  import opened Bytes

  /** The paths the migration touches, each one entry of one directory. */
  datatype Name =
    | Quarantine | TargetParent
    | HostSource | TargetSource
    | Journal | Temp
    | HostDest | TargetDest

  /** The directories those entries live in. */
  datatype Folder = ObjFolder | TargetFolder | QuarantineFolder

  function Holder(name: Name): Folder {
    match name
    case Quarantine | TargetParent | HostSource => ObjFolder
    case TargetSource => TargetFolder
    case Journal | Temp | HostDest | TargetDest => QuarantineFolder
  }

  /** What a symbolic link leads to; `exists` and `is_dir` follow links. */
  datatype Referent = Dangling | ToFolder | ToFile

  datatype Entry =
    | Absent
    | File(ino: nat)
    | Directory(id: nat)
    | Symlink(referent: Referent)
  {
    predicate Exists() {
      File? || Directory? || (Symlink? && referent != Dangling)
    }

    predicate IsFolder() {
      Directory? || (Symlink? && referent == ToFolder)
    }

    /** `path.exists() or path.is_symlink()` */
    predicate Present() {
      !Absent?
    }
  }

  /** One entry for every name. */
  datatype Names = Names(
    quarantine: Entry, targetParent: Entry,
    hostSource: Entry, targetSource: Entry,
    journal: Entry, temp: Entry,
    hostDest: Entry, targetDest: Entry)
  {
    function At(name: Name): Entry {
      match name
      case Quarantine => quarantine
      case TargetParent => targetParent
      case HostSource => hostSource
      case TargetSource => targetSource
      case Journal => journal
      case Temp => temp
      case HostDest => hostDest
      case TargetDest => targetDest
    }

    function With(name: Name, entry: Entry): (r: Names)
      ensures forall other :: r.At(other) == if other == name then entry else At(other)
    {
      match name
      case Quarantine => this.(quarantine := entry)
      case TargetParent => this.(targetParent := entry)
      case HostSource => this.(hostSource := entry)
      case TargetSource => this.(targetSource := entry)
      case Journal => this.(journal := entry)
      case Temp => this.(temp := entry)
      case HostDest => this.(hostDest := entry)
      case TargetDest => this.(targetDest := entry)
    }

    /** Entries of a directory that is not there cannot be reached. */
    function Reachable(): (r: Names) {
      if quarantine.Directory? then this
      else this.(journal := Absent, temp := Absent, hostDest := Absent, targetDest := Absent)
    }
  }

  /** A directory change; a rename changes two entries as one. */
  datatype Change =
    | Put(name: Name, entry: Entry)
    | Rename(from: Name, to: Name, id: nat)
  {
    predicate Edits(n: Name) {
      match this
      case Put(name, _) => n == name
      case Rename(from, to, _) => n == from || n == to
    }

    predicate Touches(folder: Folder) {
      match this
      case Put(name, _) => Holder(name) == folder
      case Rename(from, to, _) => Holder(from) == folder || Holder(to) == folder
    }

    function Apply(names: Names): (r: Names)
      ensures forall n :: !Edits(n) ==> r.At(n) == names.At(n)
    {
      match this
      case Put(name, entry) => names.With(name, entry)
      case Rename(from, to, id) => names.With(from, Absent).With(to, Directory(id))
    }
  }

  /** A file's metadata, its content, and whether that content was fsynced. `outside`
      counts hard links under names the migration does not use. */
  datatype Inode = Inode(regular: bool, mode: nat, owner: nat, content: seq<byte>, synced: bool, outside: nat)

  /** `live` is what system calls see. The disk holds `disk`, and each change in
      `pending` may or may not have reached it. */
  datatype Volume = Volume(live: Names, disk: Names, pending: seq<Change>, inodes: map<nat, Inode>)
  {
    function Do(change: Change): (r: Volume) {
      this.(live := change.Apply(live), pending := pending + [change])
    }

    /** fsync of a directory: every pending change to it reaches the disk. */
    function SyncFolder(folder: Folder): (r: Volume) {
      this.(disk := Flush(disk, pending, folder), pending := Others(pending, folder))
    }

    /** fsync of an open regular file. */
    function SyncFile(entry: Entry): (r: Volume) {
      if entry.File? && entry.ino in inodes then
        this.(inodes := inodes[entry.ino := inodes[entry.ino].(synced := true)])
      else this
    }

    /** The link count fstat reports. */
    function Links(ino: nat): nat {
      (if live.journal == File(ino) then 1 else 0)
      + (if live.temp == File(ino) then 1 else 0)
      + (if ino in inodes then inodes[ino].outside else 0)
    }

    /** The entry is on disk and no unsynced change can undo it. */
    ghost predicate Settled(n: Name) {
      disk.At(n) == live.At(n) && Untouched(pending, n)
    }

    ghost predicate KnownInodes() {
      && (live.journal.File? ==> live.journal.ino in inodes)
      && (live.temp.File? ==> live.temp.ino in inodes)
    }
  }

  ghost predicate Untouched(changes: seq<Change>, n: Name) {
    forall k :: 0 <= k < |changes| ==> !changes[k].Edits(n)
  }

  function Flush(names: Names, changes: seq<Change>, folder: Folder): (r: Names) {
    if changes == [] then names
    else
      var rest := Flush(names, changes[..|changes| - 1], folder);
      var last := changes[|changes| - 1];
      if last.Touches(folder) then last.Apply(rest) else rest
  }

  function Others(changes: seq<Change>, folder: Folder): (r: seq<Change>)
    ensures forall k :: 0 <= k < |r| ==> r[k] in changes && !r[k].Touches(folder)
  {
    if changes == [] then []
    else
      var rest := Others(changes[..|changes| - 1], folder);
      var last := changes[|changes| - 1];
      if last.Touches(folder) then rest else rest + [last]
  }

  /** The disk after power is lost when exactly the kept changes reached it. */
  function Survive(names: Names, changes: seq<Change>, keep: seq<bool>): (r: Names)
    requires |keep| == |changes|
  {
    if changes == [] then names
    else
      var n := |changes| - 1;
      var rest := Survive(names, changes[..n], keep[..n]);
      if keep[n] then changes[n].Apply(rest) else rest
  }

  /** A volume found at restart after losing power at `v`. Unsynced file content is
      arbitrary; link counts follow the surviving entries. */
  ghost predicate LosesPowerTo(v: Volume, r: Volume) {
    && (exists keep: seq<bool> :: |keep| == |v.pending| && r.live == Survive(v.disk, v.pending, keep).Reachable())
    && r.disk == r.live
    && r.pending == []
    && r.inodes.Keys == v.inodes.Keys
    && (forall i <- v.inodes :: v.inodes[i].synced ==> r.inodes[i] == v.inodes[i])
    && (forall i <- v.inodes :: r.inodes[i] == v.inodes[i].(content := r.inodes[i].content, synced := true))
  }

  // Changes that do not edit a name leave it as it was on disk.

  lemma {:induction false} FlushUntouched(names: Names, changes: seq<Change>, folder: Folder, n: Name)
    requires Untouched(changes, n)
    ensures Flush(names, changes, folder).At(n) == names.At(n)
    ensures Untouched(Others(changes, folder), n)
  {
    if changes != [] {
      FlushUntouched(names, changes[..|changes| - 1], folder, n);
    }
  }

  lemma {:induction false} SurviveUntouched(names: Names, changes: seq<Change>, keep: seq<bool>, n: Name)
    requires |keep| == |changes| && Untouched(changes, n)
    ensures Survive(names, changes, keep).At(n) == names.At(n)
  {
    if changes != [] {
      var k := |changes| - 1;
      SurviveUntouched(names, changes[..k], keep[..k], n);
    }
  }
}
